/** The read handlers of backEnd/src/controllers/tweet.controller.js:
    `getTweetById`, `getUserTweets`, `getTimeline` and `getTweetReplies`,
    with their visibility rules, quote redaction and page arithmetic. */
module TweetReads {
  import opened Wrappers
  import opened TweetModel
  import opened Store
  import opened Collections
  import opened Paging
  import opened Views
  import Follows

  /** A page of tweets and its page information. */
  datatype Listing = Listing(items: seq<TweetView>, info: PageInfo)

  /** `getTweetById`: 400 for a malformed id, 404 when the tweet or its
      author is missing, 403 for someone else's private tweet. A private
      quoted tweet is shown only to its author. */
  function GetTweetById(tweets: map<TweetId, Tweet>, users: map<UserId, Profile>, viewer: UserId, tweet: IdParam)
    : (r: Result<TweetView>)
    ensures r == Fail(BAD_REQUEST) <==> tweet.Malformed?
    ensures tweet.ObjectId? ==>
      (r == Fail(NOT_FOUND) <==> tweet.id !in tweets || tweets[tweet.id].author !in users)
    ensures r == Fail(FORBIDDEN) <==>
      tweet.ObjectId? && tweet.id in tweets && tweets[tweet.id].author in users
      && !Shown(tweets[tweet.id], {viewer})
    ensures r.Fail? ==> r.status in {BAD_REQUEST, NOT_FOUND, FORBIDDEN}
    ensures r.Ok? ==>
      && r.status == OK && tweet.ObjectId? && tweet.id in tweets
      && r.value.id == tweet.id && r.value.tweet == tweets[tweet.id]
      && Shown(r.value.tweet, {viewer})
      && (r.value.quote.Some? ==> Shown(r.value.quote.value, {viewer}))
  {
    match tweet
    case Malformed => Fail(BAD_REQUEST)
    case ObjectId(id) =>
      if id !in tweets || tweets[id].author !in users then Fail(NOT_FOUND)
      else if !Shown(tweets[id], {viewer}) then Fail(FORBIDDEN)
      else Ok(OK, ViewOf(tweets, users, (id, tweets[id]), {viewer}))
  }

  /** A private tweet reaches only its author: for anyone else the answer is
      403 (or 404 when it is gone). */
  lemma PrivateTweetOnlyForAuthor(tweets: map<TweetId, Tweet>, users: map<UserId, Profile>, viewer: UserId, id: TweetId)
    requires id in tweets && tweets[id].visibility == Private
    ensures GetTweetById(tweets, users, viewer, ObjectId(id)).Ok? <==>
      tweets[id].author == viewer && viewer in users
  {
  }

  /** The match of `getUserTweets`: the user's own tweets that are not
      replies, whatever their visibility. */
  function ByAuthor(u: UserId): ((TweetId, Tweet)) -> bool {
    (rec: (TweetId, Tweet)) => rec.1.author == u && !rec.1.isReply
  }

  /** `getUserTweets`: the user's non-reply tweets, newest first, one page
      of them, quotes redacted for the caller. No visibility filter is
      applied, so private tweets of the user are listed to everyone. */
  function GetUserTweets(tweets: map<TweetId, Tweet>, users: map<UserId, Profile>, viewer: UserId, author: IdParam,
                         page: nat, limit: nat): (r: Result<Listing>)
    requires page >= 1 && limit >= 1
    ensures r.Fail? <==> author.Malformed?
    ensures r.Fail? ==> r.status == BAD_REQUEST
    ensures r.Ok? ==>
      && r.status == OK
      && |r.value.items| <= limit
      && NewestFirstViews(r.value.items)
      && (forall v :: v in r.value.items ==>
            v.tweet.author == author.id && !v.tweet.isReply && v.id in tweets && tweets[v.id] == v.tweet
            && (v.quote.Some? ==> Shown(v.quote.value, {viewer})))
      && r.value.info == CountPageInfo(page, limit, |Newest(tweets, ByAuthor(author.id))|)
    ensures r.Ok? ==> r.value.items == ListPage(tweets, users, ByAuthor(author.id), page, limit, {viewer})
  {
    match author
    case Malformed => Fail(BAD_REQUEST)
    case ObjectId(u) =>
      var items := ListPage(tweets, users, ByAuthor(u), page, limit, {viewer});
      Ok(OK, Listing(items, CountPageInfo(page, limit, Count(Records(tweets), ByAuthor(u)))))
  }

  /** Every non-reply tweet of the user whose author exists is listed on
      some page. */
  lemma EveryUserTweetListed(tweets: map<TweetId, Tweet>, users: map<UserId, Profile>, viewer: UserId, u: UserId,
                             limit: nat, id: TweetId)
    requires limit >= 1
    requires id in tweets && tweets[id].author == u && !tweets[id].isReply && u in users
    ensures exists page ::
      && page >= 1 && GetUserTweets(tweets, users, viewer, ObjectId(u), page, limit).Ok?
      && ViewOf(tweets, users, (id, tweets[id]), {viewer}) in GetUserTweets(tweets, users, viewer, ObjectId(u), page, limit).value.items
  {
    EveryTweetListed(tweets, users, ByAuthor(u), limit, {viewer}, id);
    var page :| page >= 1 && ViewOf(tweets, users, (id, tweets[id]), {viewer}) in ListPage(tweets, users, ByAuthor(u), page, limit, {viewer});
    assert GetUserTweets(tweets, users, viewer, ObjectId(u), page, limit).Ok?;
  }

  /** The first `$match` of the timeline: non-replies that are public or by
      the caller or someone the caller follows. */
  function TimelineMatch(ids: set<UserId>): ((TweetId, Tweet)) -> bool {
    (rec: (TweetId, Tweet)) => !rec.1.isReply && (rec.1.author in ids || rec.1.visibility == Public)
  }

  /** The second `$match`, as the count query states it: public or
      protected, or private by one of `ids`. */
  function TimelineVisible(ids: set<UserId>): ((TweetId, Tweet)) -> bool {
    (rec: (TweetId, Tweet)) => rec.1.visibility in {Public, Protected} || rec.1.author in ids
  }

  /** The query documents of the timeline's second `$match`, as far as the
      two aggregates write them. `BareIn` is an aggregation `$in` written
      straight into a query document, with neither a field name nor
      `$expr` around it. */
  datatype Query =
    | VisibilityIs(v: Visibility)
    | VisibilityIn(vs: set<Visibility>)
    | AuthorIn(ids: set<UserId>)
    | BareIn(ids: set<UserId>)
    | And(parts: seq<Query>)
    | Or(parts: seq<Query>)

  /** MongoDB parses a `$match` before it runs the pipeline: `$and` and
      `$or` take a non-empty array of query documents, and a top-level
      `$in` is an unknown operator, so the whole aggregate is refused. */
  predicate Parses(q: Query) {
    match q
    case BareIn(_) => false
    case And(parts) => |parts| > 0 && forall i :: 0 <= i < |parts| ==> Parses(parts[i])
    case Or(parts) => |parts| > 0 && forall i :: 0 <= i < |parts| ==> Parses(parts[i])
    case _ => true
  }

  /** Whether a stored tweet satisfies a query. Only a query that parses
      is ever run; the refused `BareIn` holds of nothing. */
  predicate Holds(q: Query, t: Tweet) {
    match q
    case BareIn(_) => false
    case VisibilityIs(v) => t.visibility == v
    case VisibilityIn(vs) => t.visibility in vs
    case AuthorIn(ids) => t.author in ids
    case And(parts) => forall i :: 0 <= i < |parts| ==> Holds(parts[i], t)
    case Or(parts) => exists i :: 0 <= i < |parts| && Holds(parts[i], t)
  }

  /** The second `$match` of the listing aggregate, as written: the private
      branch tests `$author._id` with a bare `$in`. */
  function ListingVisibleStage(ids: set<UserId>): Query {
    Or([VisibilityIn({Public, Protected}), And([VisibilityIs(Private), BareIn(ids)])])
  }

  /** The second `$match` of the count aggregate: the same rule written
      with the `author` field. */
  function CountVisibleStage(ids: set<UserId>): Query {
    Or([VisibilityIn({Public, Protected}), And([VisibilityIs(Private), AuthorIn(ids)])])
  }

  /** The listing's stage does not parse: its private branch holds the
      bare `$in`. */
  lemma ListingStageRefused(ids: set<UserId>)
    ensures !Parses(ListingVisibleStage(ids))
  {
    var bare := And([VisibilityIs(Private), BareIn(ids)]);
    assert !Parses(bare.parts[1]);
    assert ListingVisibleStage(ids).parts[1] == bare;
  }

  /** The count's stage parses. */
  lemma CountStageParses(ids: set<UserId>)
    ensures Parses(CountVisibleStage(ids))
  {
    var priv := And([VisibilityIs(Private), AuthorIn(ids)]);
    assert Parses(priv.parts[0]) && Parses(priv.parts[1]);
    assert CountVisibleStage(ids).parts[1] == priv;
  }

  /** The count's stage keeps exactly the tweets of `TimelineVisible`. */
  lemma CountStageMeansVisible(ids: set<UserId>, rec: (TweetId, Tweet))
    ensures Parses(CountVisibleStage(ids))
    ensures Holds(CountVisibleStage(ids), rec.1) <==> TimelineVisible(ids)(rec)
  {
    CountStageParses(ids);
    var shared := VisibilityIn({Public, Protected});
    var priv := And([VisibilityIs(Private), AuthorIn(ids)]);
    var count := CountVisibleStage(ids);
    assert count.parts[0] == shared && count.parts[1] == priv;
    assert Holds(priv, rec.1) <==> rec.1.visibility == Private && rec.1.author in ids by {
      assert Holds(priv, rec.1) <==> Holds(priv.parts[0], rec.1) && Holds(priv.parts[1], rec.1);
    }
    assert Holds(count, rec.1) <==> Holds(shared, rec.1) || Holds(priv, rec.1);
  }

  /** The caller and everyone the caller follows. */
  function TimelineAuthors(follows: set<(UserId, UserId)>, viewer: UserId): (ids: set<UserId>)
    ensures forall u :: u in ids <==> u == viewer || (viewer, u) in follows
  {
    Follows.Following(follows, viewer) + {viewer}
  }

  /** `getTimeline` as intended: one page of the matching tweets, newest
      first, with quotes redacted unless their author is one of the
      caller's authors; the total is the count query. The listing's own
      second `$match` is refused as written (`TimelineAsWrittenFails`); with
      the count query's stage in its place the answer is this listing
      (`TimelineWithCountStage`). */
  function GetTimeline(tweets: map<TweetId, Tweet>, users: map<UserId, Profile>, follows: set<(UserId, UserId)>,
                       viewer: UserId, page: nat, limit: nat): (r: Listing)
    requires page >= 1 && limit >= 1
    ensures |r.items| <= limit
    ensures NewestFirstViews(r.items)
    ensures forall v :: v in r.items ==>
      && v.id in tweets && tweets[v.id] == v.tweet && !v.tweet.isReply && v.tweet.author in users
      && (v.tweet.visibility == Public || v.tweet.author == viewer || (viewer, v.tweet.author) in follows)
      && (v.quote.Some? ==> Shown(v.quote.value, TimelineAuthors(follows, viewer)))
    ensures r.info == CountPageInfo(page, limit, Count(Filter(Records(tweets), TimelineMatch(TimelineAuthors(follows, viewer))),
                                                       TimelineVisible(TimelineAuthors(follows, viewer))))
    ensures r.items == ListPage(tweets, users, TimelineMatch(TimelineAuthors(follows, viewer)), page, limit,
                                TimelineAuthors(follows, viewer))
  {
    var ids := TimelineAuthors(follows, viewer);
    var items := ListPage(tweets, users, TimelineMatch(ids), page, limit, ids);
    var matched := Filter(Records(tweets), TimelineMatch(ids));
    Listing(items, CountPageInfo(page, limit, Count(matched, TimelineVisible(ids))))
  }

  /** The views a stage keeps. */
  function KeptBy(stage: Query): TweetView -> bool {
    (v: TweetView) => Holds(stage, v.tweet)
  }

  /** `getTimeline` with `stage` as the listing aggregate's second `$match`,
      which runs after `$skip` and `$limit`: 500 when MongoDB refuses the
      stage, since `asyncHandler` passes the thrown error on; otherwise the
      page of the first match, cut by the stage, with the count query's
      page information. */
  function TimelineWithStage(stage: Query, tweets: map<TweetId, Tweet>, users: map<UserId, Profile>,
                             follows: set<(UserId, UserId)>, viewer: UserId, page: nat, limit: nat): (r: Result<Listing>)
    requires page >= 1 && limit >= 1
    ensures r.Fail? <==> !Parses(stage)
    ensures r.Fail? ==> r.status == SERVER_ERROR
    ensures r.Ok? ==>
      && r.status == OK
      && r.value.info == GetTimeline(tweets, users, follows, viewer, page, limit).info
      && forall v :: v in r.value.items <==>
           v in GetTimeline(tweets, users, follows, viewer, page, limit).items && Holds(stage, v.tweet)
  {
    if !Parses(stage) then Fail(SERVER_ERROR)
    else
      var base := GetTimeline(tweets, users, follows, viewer, page, limit);
      Ok(OK, Listing(Filter(base.items, KeptBy(stage)), base.info))
  }

  /** As written, the listing's stage is refused, so every call answers
      500, whatever is stored. */
  lemma TimelineAsWrittenFails(tweets: map<TweetId, Tweet>, users: map<UserId, Profile>, follows: set<(UserId, UserId)>,
                               viewer: UserId, page: nat, limit: nat)
    requires page >= 1 && limit >= 1
    ensures TimelineWithStage(ListingVisibleStage(TimelineAuthors(follows, viewer)), tweets, users, follows, viewer, page, limit)
            == Fail(SERVER_ERROR)
  {
    ListingStageRefused(TimelineAuthors(follows, viewer));
  }

  /** With the count query's rule in its place, tested on the looked-up
      author's id (`"author._id"`, since `author` is the joined user at
      that stage), the listing is exactly `GetTimeline`: the stage parses
      and drops nothing from the page. */
  lemma TimelineWithCountStage(tweets: map<TweetId, Tweet>, users: map<UserId, Profile>, follows: set<(UserId, UserId)>,
                               viewer: UserId, page: nat, limit: nat)
    requires page >= 1 && limit >= 1
    ensures TimelineWithStage(CountVisibleStage(TimelineAuthors(follows, viewer)), tweets, users, follows, viewer, page, limit)
            == Ok(OK, GetTimeline(tweets, users, follows, viewer, page, limit))
  {
    var ids := TimelineAuthors(follows, viewer);
    var stage := CountVisibleStage(ids);
    var base := GetTimeline(tweets, users, follows, viewer, page, limit);
    var p := KeptBy(stage);
    CountStageParses(ids);
    forall i | 0 <= i < |base.items|
      ensures p(base.items[i])
    {
      CountStageMeansVisible(ids, (base.items[i].id, base.items[i].tweet));
      assert base.items[i] in base.items;
    }
    FilterKeepsAll(base.items, p);
  }

  /** The second stage of the timeline filters nothing out: every tweet the
      first match keeps is already public, protected, or by one of the
      caller's authors. So the total counts exactly the first match. */
  lemma TimelineSecondStageRedundant(tweets: map<TweetId, Tweet>, follows: set<(UserId, UserId)>, viewer: UserId)
    ensures var ids := TimelineAuthors(follows, viewer);
      var matched := Filter(Records(tweets), TimelineMatch(ids));
      Filter(matched, TimelineVisible(ids)) == matched
      && Count(matched, TimelineVisible(ids)) == |Newest(tweets, TimelineMatch(ids))|
  {
    var ids := TimelineAuthors(follows, viewer);
    FilterRedundant(Records(tweets), TimelineMatch(ids), TimelineVisible(ids));
    CountIsFilterLength(Filter(Records(tweets), TimelineMatch(ids)), TimelineVisible(ids));
    CountIsFilterLength(Records(tweets), TimelineMatch(ids));
  }

  /** The timeline misses nothing: every non-reply tweet whose author
      exists and that is public, the caller's own, or by someone the caller
      follows is listed on some page. */
  lemma EveryTimelineTweetListed(tweets: map<TweetId, Tweet>, users: map<UserId, Profile>, follows: set<(UserId, UserId)>,
                                 viewer: UserId, limit: nat, id: TweetId)
    requires limit >= 1
    requires id in tweets && !tweets[id].isReply && tweets[id].author in users
    requires tweets[id].visibility == Public || tweets[id].author == viewer || (viewer, tweets[id].author) in follows
    ensures exists page ::
      && page >= 1
      && ViewOf(tweets, users, (id, tweets[id]), TimelineAuthors(follows, viewer)) in GetTimeline(tweets, users, follows, viewer, page, limit).items
  {
    var ids := TimelineAuthors(follows, viewer);
    EveryTweetListed(tweets, users, TimelineMatch(ids), limit, ids, id);
    var page :| page >= 1 && ViewOf(tweets, users, (id, tweets[id]), ids) in ListPage(tweets, users, TimelineMatch(ids), page, limit, ids);
    assert GetTimeline(tweets, users, follows, viewer, page, limit).items == ListPage(tweets, users, TimelineMatch(ids), page, limit, ids);
  }

  /** A protected tweet of someone the caller does not follow never reaches
      the timeline, and neither does a private one. */
  lemma TimelineExcludesStrangers(tweets: map<TweetId, Tweet>, users: map<UserId, Profile>, follows: set<(UserId, UserId)>,
                                  viewer: UserId, page: nat, limit: nat, id: TweetId)
    requires page >= 1 && limit >= 1
    requires id in tweets && tweets[id].visibility != Public
    requires tweets[id].author != viewer && (viewer, tweets[id].author) !in follows
    ensures forall v :: v in GetTimeline(tweets, users, follows, viewer, page, limit).items ==> v.id != id
  {
  }

  /** `getTweetReplies`: 400 for a malformed id, 404 when the parent or its
      author is missing, 403 for someone else's private parent; otherwise a
      page of the direct replies, newest first, whatever their own
      visibility. */
  function GetTweetReplies(tweets: map<TweetId, Tweet>, users: map<UserId, Profile>, viewer: UserId, parent: IdParam,
                           page: nat, limit: nat): (r: Result<Listing>)
    requires page >= 1 && limit >= 1
    ensures r == Fail(BAD_REQUEST) <==> parent.Malformed?
    ensures parent.ObjectId? ==>
      (r == Fail(NOT_FOUND) <==> parent.id !in tweets || tweets[parent.id].author !in users)
    ensures r == Fail(FORBIDDEN) <==>
      parent.ObjectId? && parent.id in tweets && tweets[parent.id].author in users
      && !Shown(tweets[parent.id], {viewer})
    ensures r.Ok? ==>
      && r.status == OK
      && |r.value.items| <= limit
      && NewestFirstViews(r.value.items)
      && (forall v :: v in r.value.items ==>
            v.tweet.replyTo == Some(parent.id) && v.id in tweets && tweets[v.id] == v.tweet
            && (v.quote.Some? ==> Shown(v.quote.value, {viewer})))
      && r.value.info == CountPageInfo(page, limit, |Newest(tweets, RepliesTo(parent.id))|)
    ensures r.Ok? ==> r.value.items == ListPage(tweets, users, RepliesTo(parent.id), page, limit, {viewer})
  {
    match parent
    case Malformed => Fail(BAD_REQUEST)
    case ObjectId(id) =>
      if id !in tweets || tweets[id].author !in users then Fail(NOT_FOUND)
      else if !Shown(tweets[id], {viewer}) then Fail(FORBIDDEN)
      else
        var items := ListPage(tweets, users, RepliesTo(id), page, limit, {viewer});
        Ok(OK, Listing(items, CountPageInfo(page, limit, Count(Records(tweets), RepliesTo(id)))))
  }

  /** The match of `getTweetReplies`. */
  function RepliesTo(id: TweetId): ((TweetId, Tweet)) -> bool {
    (rec: (TweetId, Tweet)) => rec.1.replyTo == Some(id)
  }

  /** Every reply to a parent the caller may see, whose author exists, is
      listed on some page. */
  lemma EveryReplyListed(tweets: map<TweetId, Tweet>, users: map<UserId, Profile>, viewer: UserId, parent: TweetId,
                         limit: nat, id: TweetId)
    requires limit >= 1
    requires parent in tweets && tweets[parent].author in users && Shown(tweets[parent], {viewer})
    requires id in tweets && tweets[id].replyTo == Some(parent) && tweets[id].author in users
    ensures exists page ::
      && page >= 1 && GetTweetReplies(tweets, users, viewer, ObjectId(parent), page, limit).Ok?
      && ViewOf(tweets, users, (id, tweets[id]), {viewer}) in GetTweetReplies(tweets, users, viewer, ObjectId(parent), page, limit).value.items
  {
    EveryTweetListed(tweets, users, RepliesTo(parent), limit, {viewer}, id);
    var page :| page >= 1 && ViewOf(tweets, users, (id, tweets[id]), {viewer}) in ListPage(tweets, users, RepliesTo(parent), page, limit, {viewer});
    assert GetTweetReplies(tweets, users, viewer, ObjectId(parent), page, limit).Ok?;
  }
}
