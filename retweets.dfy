/** backEnd/src/controllers/reTweet.controller.js: `createRetweet` and
    `removeRetweet` with the `retweetCount` and `tweetsCount` updates, the
    three listings with their page information, and `checkRetweetStatus`.
    The unique index of backEnd/src/models/reTweet.model.js on
    (user, tweet) is the invariant `Unique`. */
module Retweets {
  import opened Wrappers
  import opened TweetModel
  import opened Store
  import opened Collections
  import opened Paging
  import opened TweetCounters

  /** At most one retweet record per (user, tweet). */
  predicate Unique(retweets: map<RetweetId, Retweet>) {
    forall a, b ::
      (a in retweets && b in retweets && retweets[a].user == retweets[b].user && retweets[a].tweet == retweets[b].tweet)
      ==> a == b
  }

  /** `Retweet.findOne({ user, tweet })`: the record of `user`'s retweet of
      t, if there is one (the lowest id should there be several). */
  function Find(retweets: map<RetweetId, Retweet>, user: UserId, t: TweetId): (r: Option<RetweetId>)
    ensures r.Some? ==> r.value in retweets && retweets[r.value].user == user && retweets[r.value].tweet == t
    ensures r.None? <==> forall k :: k in retweets ==> retweets[k].user != user || retweets[k].tweet != t
  {
    var ks := set k | k in retweets && retweets[k].user == user && retweets[k].tweet == t;
    assert forall k :: k in retweets && retweets[k].user == user && retweets[k].tweet == t ==> k in ks;
    if ks == {} then None
    else
      var k := Min(ks);
      assert k in ks;
      Some(k)
  }

  /** `comment || undefined`: an empty comment is not stored. */
  function StoredComment(comment: Option<string>): (r: Option<string>)
    ensures r.Some? <==> comment.Some? && comment.value != ""
    ensures r.Some? ==> r == comment
  {
    if comment.Some? && comment.value != "" then comment else None
  }

  /** `User.findByIdAndUpdate(u, { $inc: { tweetsCount: d } })`: no effect
      when the user does not exist. */
  function IncTweetsCount(users: map<UserId, Profile>, u: UserId, d: int): (r: map<UserId, Profile>)
    ensures r.Keys == users.Keys
    ensures forall k :: k in users && k != u ==> r[k] == users[k]
    ensures u in users ==> r[u] == users[u].(tweetsCount := users[u].tweetsCount + d)
  {
    if u in users then users[u := users[u].(tweetsCount := users[u].tweetsCount + d)] else users
  }

  /** The collections a retweet request touches. */
  datatype Shared = Shared(tweets: map<TweetId, Tweet>, users: map<UserId, Profile>, retweets: map<RetweetId, Retweet>)

  /** `createRetweet` of `tweet` by `user`, the new record taking the fresh
      id `id` at time `now`: 400 without an id, 500 for an id that does not
      parse, 404 when the tweet or its author is missing, 409 for a second
      retweet. Otherwise the record is created and the tweet's
      `retweetCount` and the user's `tweetsCount` rise by one. (The final
      lookup of the created record always finds it, so its 500 never
      happens.) */
  function CreateRetweetStep(s: Shared, user: UserId, tweet: Option<IdParam>, comment: Option<string>,
                             id: RetweetId, now: nat): (r: (Shared, nat))
    requires id !in s.retweets
    ensures r.1 == BAD_REQUEST <==> tweet.None?
    ensures r.1 == SERVER_ERROR <==> tweet == Some(Malformed)
    ensures r.1 == NOT_FOUND <==>
      tweet.Some? && tweet.value.ObjectId? && (tweet.value.id !in s.tweets || s.tweets[tweet.value.id].author !in s.users)
    ensures r.1 == CONFLICT <==>
      tweet.Some? && tweet.value.ObjectId? && tweet.value.id in s.tweets && s.tweets[tweet.value.id].author in s.users
      && Find(s.retweets, user, tweet.value.id).Some?
    ensures r.1 in {CREATED, BAD_REQUEST, NOT_FOUND, CONFLICT, SERVER_ERROR}
    ensures r.1 != CREATED ==> r.0 == s
    ensures r.1 == CREATED ==>
      && tweet.Some? && tweet.value.ObjectId?
      && r.0.retweets == s.retweets[id := Retweet(user, tweet.value.id, StoredComment(comment), now)]
      && r.0.tweets == IncRetweets(s.tweets, tweet.value.id, 1)
      && r.0.users == IncTweetsCount(s.users, user, 1)
  {
    match tweet
    case None => (s, BAD_REQUEST)
    case Some(Malformed) => (s, SERVER_ERROR)
    case Some(ObjectId(t)) =>
      if t !in s.tweets || s.tweets[t].author !in s.users then (s, NOT_FOUND)
      else if Find(s.retweets, user, t).Some? then (s, CONFLICT)
      else
        (Shared(IncRetweets(s.tweets, t, 1), IncTweetsCount(s.users, user, 1),
                s.retweets[id := Retweet(user, t, StoredComment(comment), now)]), CREATED)
  }

  /** `removeRetweet` of `tweet` by `user`: 400 without an id, 500 for an id
      that does not parse, 404 when the user has no retweet of it;
      otherwise the record is deleted and the tweet's `retweetCount` drops
      by one. The user's `tweetsCount` is left as it is. */
  function RemoveRetweetStep(s: Shared, user: UserId, tweet: Option<IdParam>): (r: (Shared, nat))
    ensures r.1 == BAD_REQUEST <==> tweet.None?
    ensures r.1 == SERVER_ERROR <==> tweet == Some(Malformed)
    ensures r.1 == NOT_FOUND <==> tweet.Some? && tweet.value.ObjectId? && Find(s.retweets, user, tweet.value.id).None?
    ensures r.1 in {OK, BAD_REQUEST, NOT_FOUND, SERVER_ERROR}
    ensures r.1 != OK ==> r.0 == s
    ensures r.1 == OK ==>
      && tweet.Some? && tweet.value.ObjectId?
      && var k := Find(s.retweets, user, tweet.value.id).value;
      && r.0.retweets == s.retweets - {k}
      && r.0.tweets == IncRetweets(s.tweets, tweet.value.id, -1)
      && r.0.users == s.users
  {
    match tweet
    case None => (s, BAD_REQUEST)
    case Some(Malformed) => (s, SERVER_ERROR)
    case Some(ObjectId(t)) =>
      match Find(s.retweets, user, t)
      case None => (s, NOT_FOUND)
      case Some(k) => (s.(tweets := IncRetweets(s.tweets, t, -1), retweets := s.retweets - {k}), OK)
  }

  /** A new record adds its id to the reposts of its tweet only. */
  lemma RepostsAfterAdd(retweets: map<RetweetId, Retweet>, id: RetweetId, rt: Retweet, k: TweetId)
    requires id !in retweets
    ensures Reposts(retweets[id := rt], k) == if rt.tweet == k then Reposts(retweets, k) + {id} else Reposts(retweets, k)
  {
  }

  /** A deleted record leaves the reposts of its tweet only. */
  lemma RepostsAfterRemove(retweets: map<RetweetId, Retweet>, id: RetweetId, k: TweetId)
    requires id in retweets
    ensures Reposts(retweets - {id}, k) == if retweets[id].tweet == k then Reposts(retweets, k) - {id} else Reposts(retweets, k)
  {
  }

  /** Moving t's `retweetCount` by d together with its reposts keeps every
      tweet's counters in agreement. */
  lemma CountersAfterRepost(tweets: map<TweetId, Tweet>, retweets: map<RetweetId, Retweet>,
                            after: map<RetweetId, Retweet>, t: TweetId, d: int)
    requires CountersOk(tweets, retweets)
    requires forall k :: k != t ==> Reposts(after, k) == Reposts(retweets, k)
    requires |Reposts(after, t)| == |Reposts(retweets, t)| + d
    ensures CountersOk(IncRetweets(tweets, t, d), after)
  {
    var moved := IncRetweets(tweets, t, d);
    assert SameLinks(tweets, moved) by {
      forall k | k in tweets ensures LinksEqual(tweets[k], moved[k]) {
        assert SameButCounters(moved[k], tweets[k]);
      }
    }
    forall k | k in moved ensures CountsAt(moved, after, k) {
      assert CountsAt(tweets, retweets, k);
      SameLinksSameSets(tweets, moved, k);
    }
  }

  /** The invariants every request keeps. */
  predicate Consistent(s: Shared) {
    CountersOk(s.tweets, s.retweets) && Unique(s.retweets)
  }

  /** Creating a retweet keeps the counters in agreement with the records
      and at most one record per (user, tweet). */
  lemma CreateKeepsInvariants(s: Shared, user: UserId, tweet: Option<IdParam>, comment: Option<string>,
                              id: RetweetId, now: nat)
    requires id !in s.retweets && Consistent(s)
    ensures Consistent(CreateRetweetStep(s, user, tweet, comment, id, now).0)
  {
    var (s2, status) := CreateRetweetStep(s, user, tweet, comment, id, now);
    if status == CREATED {
      var t := tweet.value.id;
      var rt := Retweet(user, t, StoredComment(comment), now);
      forall k ensures Reposts(s2.retweets, k) == if k == t then Reposts(s.retweets, k) + {id} else Reposts(s.retweets, k) {
        RepostsAfterAdd(s.retweets, id, rt, k);
      }
      assert id !in Reposts(s.retweets, t);
      CountersAfterRepost(s.tweets, s.retweets, s2.retweets, t, 1);
    }
  }

  /** Removing a retweet keeps both invariants too. */
  lemma RemoveKeepsInvariants(s: Shared, user: UserId, tweet: Option<IdParam>)
    requires Consistent(s)
    ensures Consistent(RemoveRetweetStep(s, user, tweet).0)
  {
    var (s2, status) := RemoveRetweetStep(s, user, tweet);
    if status == OK {
      var t := tweet.value.id;
      var id := Find(s.retweets, user, t).value;
      forall k ensures Reposts(s2.retweets, k) == if k == t then Reposts(s.retweets, k) - {id} else Reposts(s.retweets, k) {
        RepostsAfterRemove(s.retweets, id, k);
      }
      assert id in Reposts(s.retweets, t);
      CountersAfterRepost(s.tweets, s.retweets, s2.retweets, t, -1);
    }
  }

  /** A second retweet of the same tweet is refused with 409 and changes
      nothing. */
  lemma RetweetTwiceConflicts(s: Shared, user: UserId, t: TweetId, comment: Option<string>,
                              id: RetweetId, id2: RetweetId, now: nat)
    requires id !in s.retweets && id2 != id && id2 !in s.retweets
    requires CreateRetweetStep(s, user, Some(ObjectId(t)), comment, id, now).1 == CREATED
    ensures var s2 := CreateRetweetStep(s, user, Some(ObjectId(t)), comment, id, now).0;
      CreateRetweetStep(s2, user, Some(ObjectId(t)), comment, id2, now) == (s2, CONFLICT)
  {
    var s2 := CreateRetweetStep(s, user, Some(ObjectId(t)), comment, id, now).0;
    assert s2.retweets[id].user == user && s2.retweets[id].tweet == t;
  }

  /** Removing a retweet just created gives back the records and the
      tweets, but the user's `tweetsCount` stays one higher: creation
      raises it and removal does not lower it. */
  lemma CreateThenRemove(s: Shared, user: UserId, t: TweetId, comment: Option<string>, id: RetweetId, now: nat)
    requires id !in s.retweets && user in s.users
    requires CreateRetweetStep(s, user, Some(ObjectId(t)), comment, id, now).1 == CREATED
    ensures var s2 := CreateRetweetStep(s, user, Some(ObjectId(t)), comment, id, now).0;
      var (s3, status) := RemoveRetweetStep(s2, user, Some(ObjectId(t)));
      && status == OK && s3.retweets == s.retweets && s3.tweets == s.tweets
      && s3.users.Keys == s.users.Keys
      && s3.users[user].tweetsCount == s.users[user].tweetsCount + 1
  {
    var s2 := CreateRetweetStep(s, user, Some(ObjectId(t)), comment, id, now).0;
    FindAfterCreate(s.retweets, user, t, id, s2.retweets[id]);
    var s3 := RemoveRetweetStep(s2, user, Some(ObjectId(t))).0;
    assert s3.retweets == s.retweets;
    RetweetCountBack(s.tweets, t);
  }

  /** Raising and then lowering a tweet's `retweetCount` gives back the tweets. */
  lemma RetweetCountBack(tweets: map<TweetId, Tweet>, t: TweetId)
    ensures IncRetweets(IncRetweets(tweets, t, 1), t, -1) == tweets
  {
    var back := IncRetweets(IncRetweets(tweets, t, 1), t, -1);
    forall k | k in tweets ensures back[k] == tweets[k] {
      assert SameButCounters(back[k], tweets[k]);
    }
  }

  /** The answer of `checkRetweetStatus`. */
  datatype RetweetStatus = RetweetStatus(hasRetweeted: bool, retweetId: Option<RetweetId>, isQuote: bool)

  /** `checkRetweetStatus`: 400 without an id, 500 for an id that does not
      parse; otherwise whether the caller has a record, its id, and whether
      its comment is non-empty. */
  function CheckRetweetStatus(retweets: map<RetweetId, Retweet>, user: UserId, tweet: Option<IdParam>)
    : (r: Result<RetweetStatus>)
    ensures r == Fail(BAD_REQUEST) <==> tweet.None?
    ensures r == Fail(SERVER_ERROR) <==> tweet == Some(Malformed)
    ensures r.Ok? ==>
      && r.status == OK && tweet.Some? && tweet.value.ObjectId?
      && (r.value.hasRetweeted <==> exists k :: k in retweets && retweets[k].user == user && retweets[k].tweet == tweet.value.id)
      && (r.value.retweetId.Some? <==> r.value.hasRetweeted)
      && (r.value.retweetId.Some? ==>
            var k := r.value.retweetId.value;
            && k in retweets && retweets[k].user == user && retweets[k].tweet == tweet.value.id
            && (r.value.isQuote <==> retweets[k].comment.Some? && retweets[k].comment.value != ""))
      && (r.value.retweetId.None? ==> !r.value.isQuote)
  {
    match tweet
    case None => Fail(BAD_REQUEST)
    case Some(Malformed) => Fail(SERVER_ERROR)
    case Some(ObjectId(t)) =>
      match Find(retweets, user, t)
      case None => Ok(OK, RetweetStatus(false, None, false))
      case Some(k) =>
        var c := retweets[k].comment;
        Ok(OK, RetweetStatus(true, Some(k), c.Some? && c.value != ""))
  }

  /** Right after a retweet the status names the new record, and calls it a
      quote exactly when a non-empty comment was sent. */
  lemma StatusAfterCreate(s: Shared, user: UserId, t: TweetId, comment: Option<string>, id: RetweetId, now: nat)
    requires id !in s.retweets
    requires CreateRetweetStep(s, user, Some(ObjectId(t)), comment, id, now).1 == CREATED
    ensures CheckRetweetStatus(CreateRetweetStep(s, user, Some(ObjectId(t)), comment, id, now).0.retweets,
                               user, Some(ObjectId(t)))
         == Ok(OK, RetweetStatus(true, Some(id), comment.Some? && comment.value != ""))
  {
    var s2 := CreateRetweetStep(s, user, Some(ObjectId(t)), comment, id, now).0;
    FindAfterCreate(s.retweets, user, t, id, s2.retweets[id]);
  }

  /** After the first retweet of t by `user`, the lookup finds the new
      record. */
  lemma FindAfterCreate(retweets: map<RetweetId, Retweet>, user: UserId, t: TweetId, id: RetweetId, rt: Retweet)
    requires id !in retweets && Find(retweets, user, t).None?
    requires rt.user == user && rt.tweet == t
    ensures Find(retweets[id := rt], user, t) == Some(id)
  {
    var after := retweets[id := rt];
    var ks := set k | k in after && after[k].user == user && after[k].tweet == t;
    assert ks == {id};
  }

  /** A listed retweet: its id, its record, and the retweeted tweet, `None`
      when that tweet is gone (the lookup's `$unwind` keeps the record). */
  datatype RetweetView = RetweetView(id: RetweetId, retweet: Retweet, tweet: Option<Tweet>)

  datatype RetweetPage = RetweetPage(items: seq<RetweetView>, info: PageInfo)

  /** `$sort: { createdAt: -1 }` on retweet records. */
  function NewerRetweet(a: (RetweetId, Retweet), b: (RetweetId, Retweet)): bool {
    a.1.createdAt >= b.1.createdAt
  }

  lemma NewerRetweetIsPreorder()
    ensures Total(NewerRetweet) && Transitive(NewerRetweet)
  {
  }

  /** The match of `getTweetRetweets`. */
  function OfTweet(t: TweetId): ((RetweetId, Retweet)) -> bool {
    (rec: (RetweetId, Retweet)) => rec.1.tweet == t
  }

  /** The match of `getUserRetweets` and `getMyRetweets`. */
  function ByUser(u: UserId): ((RetweetId, Retweet)) -> bool {
    (rec: (RetweetId, Retweet)) => rec.1.user == u
  }

  /** All matching records, newest first. */
  function Matching(retweets: map<RetweetId, Retweet>, p: ((RetweetId, Retweet)) -> bool)
    : (r: seq<(RetweetId, Retweet)>)
    ensures SortedBy(r, NewerRetweet)
    ensures forall rec :: rec in r <==> rec.0 in retweets && retweets[rec.0] == rec.1 && p(rec)
    ensures |r| == Count(Records(retweets), p)
  {
    NewerRetweetIsPreorder();
    SortedMatches(retweets, p, NewerRetweet)
  }

  /** The records of one page: the matching records newest first, then
      `$skip`/`$limit`. */
  function PageOfRetweets(retweets: map<RetweetId, Retweet>, p: ((RetweetId, Retweet)) -> bool,
                          page: nat, limit: nat): (r: seq<(RetweetId, Retweet)>)
    requires page >= 1 && limit >= 1
    ensures |r| <= limit
    ensures SortedBy(r, NewerRetweet)
    ensures forall rec :: rec in r ==> rec.0 in retweets && retweets[rec.0] == rec.1 && p(rec)
    ensures r == PageSlice(Matching(retweets, p), page, limit)
  {
    var all := Matching(retweets, p);
    PageSliceSorted(all, page, limit, NewerRetweet);
    PageSlice(all, page, limit)
  }

  /** Every matching record is on a page: the one that holds its position
      in the newest-first order. */
  lemma EveryRetweetOnAPage(retweets: map<RetweetId, Retweet>, p: ((RetweetId, Retweet)) -> bool, limit: nat, j: nat)
    requires limit >= 1 && j < |Matching(retweets, p)|
    ensures Matching(retweets, p)[j] in PageOfRetweets(retweets, p, PageOf(j, limit), limit)
  {
    var all := Matching(retweets, p);
    EveryElementOnItsPage(all, j, limit);
    var slice := PageOfRetweets(retweets, p, PageOf(j, limit), limit);
    assert slice[j - Skip(PageOf(j, limit), limit)] in slice;
  }

  /** A listed retweet's record is in the collection, matches, and comes
      with its tweet while that tweet exists. */
  predicate ListedRetweet(tweets: map<TweetId, Tweet>, retweets: map<RetweetId, Retweet>,
                          p: ((RetweetId, Retweet)) -> bool, v: RetweetView) {
    && v.id in retweets && retweets[v.id] == v.retweet && p((v.id, v.retweet))
    && (v.tweet.Some? <==> v.retweet.tweet in tweets)
    && (v.tweet.Some? ==> v.tweet.value == tweets[v.retweet.tweet])
  }

  /** The records with their retweeted tweets, in the same order. */
  function Viewed(tweets: map<TweetId, Tweet>, recs: seq<(RetweetId, Retweet)>): (r: seq<RetweetView>)
    ensures |r| == |recs|
    ensures forall i :: 0 <= i < |r| ==> r[i].id == recs[i].0 && r[i].retweet == recs[i].1
    ensures forall i :: 0 <= i < |r| ==>
      r[i].tweet == if recs[i].1.tweet in tweets then Some(tweets[recs[i].1.tweet]) else None
  {
    if recs == [] then []
    else
      var rec := recs[0];
      [RetweetView(rec.0, rec.1, if rec.1.tweet in tweets then Some(tweets[rec.1.tweet]) else None)]
        + Viewed(tweets, recs[1..])
  }

  /** One page of a retweet listing as returned; the total is
      `countDocuments` of the same match, and `hasNext` is
      `page < totalPages`. */
  function ListRetweets(tweets: map<TweetId, Tweet>, retweets: map<RetweetId, Retweet>,
                        p: ((RetweetId, Retweet)) -> bool, page: nat, limit: nat): (r: RetweetPage)
    requires page >= 1 && limit >= 1
    ensures |r.items| <= limit
    ensures forall i, j :: 0 <= i < j < |r.items| ==> r.items[i].retweet.createdAt >= r.items[j].retweet.createdAt
    ensures forall v :: v in r.items ==> ListedRetweet(tweets, retweets, p, v)
    ensures r.info == PagesPageInfo(page, limit, |Matching(retweets, p)|)
    ensures r.items == Viewed(tweets, PageOfRetweets(retweets, p, page, limit))
  {
    var recs := PageOfRetweets(retweets, p, page, limit);
    ViewedListed(tweets, retweets, p, recs);
    RetweetPage(Viewed(tweets, recs), PagesPageInfo(page, limit, |Matching(retweets, p)|))
  }

  /** A retweet listing misses nothing: every matching record is listed,
      with its tweet, on some page. */
  lemma EveryRetweetListed(tweets: map<TweetId, Tweet>, retweets: map<RetweetId, Retweet>,
                           p: ((RetweetId, Retweet)) -> bool, limit: nat, id: RetweetId)
    requires limit >= 1 && id in retweets && p((id, retweets[id]))
    ensures exists page, i ::
      && page >= 1 && 0 <= i < |ListRetweets(tweets, retweets, p, page, limit).items|
      && ListRetweets(tweets, retweets, p, page, limit).items[i].id == id
      && ListRetweets(tweets, retweets, p, page, limit).items[i].retweet == retweets[id]
  {
    var rec := (id, retweets[id]);
    var page := OnSomePage(Matching(retweets, p), rec, limit);
    var recs := PageOfRetweets(retweets, p, page, limit);
    var i :| 0 <= i < |recs| && recs[i] == rec;
    var items := ListRetweets(tweets, retweets, p, page, limit).items;
    assert items == Viewed(tweets, recs);
    assert items[i].id == id && items[i].retweet == retweets[id];
  }

  /** Viewing keeps the order of the records and what the match says. */
  lemma ViewedListed(tweets: map<TweetId, Tweet>, retweets: map<RetweetId, Retweet>,
                     p: ((RetweetId, Retweet)) -> bool, recs: seq<(RetweetId, Retweet)>)
    requires SortedBy(recs, NewerRetweet)
    requires forall rec :: rec in recs ==> rec.0 in retweets && retweets[rec.0] == rec.1 && p(rec)
    ensures var items := Viewed(tweets, recs);
      && (forall i, j :: 0 <= i < j < |items| ==> items[i].retweet.createdAt >= items[j].retweet.createdAt)
      && (forall v :: v in items ==> ListedRetweet(tweets, retweets, p, v))
  {
    var items := Viewed(tweets, recs);
    forall v | v in items ensures ListedRetweet(tweets, retweets, p, v) {
      var i :| 0 <= i < |items| && items[i] == v;
      assert recs[i] in recs;
    }
    forall i, j | 0 <= i < j < |items| ensures items[i].retweet.createdAt >= items[j].retweet.createdAt {
      assert NewerRetweet(recs[i], recs[j]);
    }
  }

  /** `getTweetRetweets`: 400 without an id, 500 for an id that does not
      parse, 404 for a missing tweet; otherwise one page of its retweets. */
  function GetTweetRetweets(tweets: map<TweetId, Tweet>, retweets: map<RetweetId, Retweet>, tweet: Option<IdParam>,
                            page: nat, limit: nat): (r: Result<RetweetPage>)
    requires page >= 1 && limit >= 1
    ensures r == Fail(BAD_REQUEST) <==> tweet.None?
    ensures r == Fail(SERVER_ERROR) <==> tweet == Some(Malformed)
    ensures r == Fail(NOT_FOUND) <==> tweet.Some? && tweet.value.ObjectId? && tweet.value.id !in tweets
    ensures r.Ok? ==>
      && r.status == OK && tweet.Some? && tweet.value.ObjectId?
      && r.value == ListRetweets(tweets, retweets, OfTweet(tweet.value.id), page, limit)
      && forall v :: v in r.value.items ==> v.retweet.tweet == tweet.value.id && v.tweet == Some(tweets[tweet.value.id])
  {
    match tweet
    case None => Fail(BAD_REQUEST)
    case Some(Malformed) => Fail(SERVER_ERROR)
    case Some(ObjectId(t)) =>
      if t !in tweets then Fail(NOT_FOUND)
      else
        var listing := ListRetweets(tweets, retweets, OfTweet(t), page, limit);
        assert forall v :: v in listing.items ==> ListedRetweet(tweets, retweets, OfTweet(t), v);
        Ok(OK, listing)
  }

  /** `getUserRetweets`: 400 without an id, 500 for an id that does not
      parse, 404 for a missing user; otherwise one page of that user's
      retweets. */
  function GetUserRetweets(users: map<UserId, Profile>, tweets: map<TweetId, Tweet>, retweets: map<RetweetId, Retweet>,
                           user: Option<IdParam>, page: nat, limit: nat): (r: Result<RetweetPage>)
    requires page >= 1 && limit >= 1
    ensures r == Fail(BAD_REQUEST) <==> user.None?
    ensures r == Fail(SERVER_ERROR) <==> user == Some(Malformed)
    ensures r == Fail(NOT_FOUND) <==> user.Some? && user.value.ObjectId? && user.value.id !in users
    ensures r.Ok? ==>
      && r.status == OK && user.Some? && user.value.ObjectId?
      && r.value == GetMyRetweets(tweets, retweets, user.value.id, page, limit)
  {
    match user
    case None => Fail(BAD_REQUEST)
    case Some(Malformed) => Fail(SERVER_ERROR)
    case Some(ObjectId(u)) =>
      if u !in users then Fail(NOT_FOUND)
      else Ok(OK, GetMyRetweets(tweets, retweets, u, page, limit))
  }

  /** `getMyRetweets`: one page of the caller's retweets, without any
      check. */
  function GetMyRetweets(tweets: map<TweetId, Tweet>, retweets: map<RetweetId, Retweet>, user: UserId,
                         page: nat, limit: nat): (r: RetweetPage)
    requires page >= 1 && limit >= 1
    ensures forall v :: v in r.items ==> v.retweet.user == user && v.id in retweets
    ensures r.info.total == |Matching(retweets, ByUser(user))|
    ensures r.items == Viewed(tweets, PageSlice(Matching(retweets, ByUser(user)), page, limit))
  {
    ListRetweets(tweets, retweets, ByUser(user), page, limit)
  }

  /** The handlers on the store. */
  method CreateRetweet(db: Db, user: UserId, tweet: Option<IdParam>, comment: Option<string>, id: RetweetId, now: nat)
    returns (status: nat)
    requires id !in db.retweets
    modifies db`tweets, db`users, db`retweets
    ensures (Shared(db.tweets, db.users, db.retweets), status)
         == CreateRetweetStep(Shared(old(db.tweets), old(db.users), old(db.retweets)), user, tweet, comment, id, now)
  {
    if tweet.None? {
      return BAD_REQUEST;
    }
    if tweet.value.Malformed? {
      return SERVER_ERROR;
    }
    var t := tweet.value.id;
    if t !in db.tweets || db.tweets[t].author !in db.users {
      return NOT_FOUND;
    }
    if Find(db.retweets, user, t).Some? {
      return CONFLICT;
    }
    db.retweets := db.retweets[id := Retweet(user, t, StoredComment(comment), now)];
    db.tweets := IncRetweets(db.tweets, t, 1);
    db.users := IncTweetsCount(db.users, user, 1);
    return CREATED;
  }

  method RemoveRetweet(db: Db, user: UserId, tweet: Option<IdParam>) returns (status: nat)
    modifies db`tweets, db`retweets
    ensures (Shared(db.tweets, db.users, db.retweets), status)
         == RemoveRetweetStep(Shared(old(db.tweets), db.users, old(db.retweets)), user, tweet)
  {
    if tweet.None? {
      return BAD_REQUEST;
    }
    if tweet.value.Malformed? {
      return SERVER_ERROR;
    }
    var t := tweet.value.id;
    var found := Find(db.retweets, user, t);
    if found.None? {
      return NOT_FOUND;
    }
    db.retweets := db.retweets - {found.value};
    db.tweets := IncRetweets(db.tweets, t, -1);
    return OK;
  }
}
