/** `likeTweet` of backEnd/src/controllers/like.controller.js: one request
    toggles the caller's like of a tweet and moves the tweet's cached
    `likesCount` by one. */
module Likes {
  import opened Wrappers
  import opened TweetModel
  import opened Store

  /** The users with a like record for tweet t. */
  function Likers(likes: set<(UserId, TweetId)>, t: TweetId): (r: set<UserId>)
    ensures forall u :: u in r <==> (u, t) in likes
  {
    set p | p in likes && p.1 == t :: p.0
  }

  /** The cached counter agrees with the like records on every tweet. */
  predicate LikeCountsOk(likes: set<(UserId, TweetId)>, tweets: map<TweetId, Tweet>) {
    forall t :: t in tweets ==> tweets[t].likesCount == |Likers(likes, t)|
  }

  /** `findByIdAndUpdate(t, { $inc: { likesCount: d } })`: no effect when the
      tweet does not exist. */
  function IncLikes(tweets: map<TweetId, Tweet>, t: TweetId, d: int): (r: map<TweetId, Tweet>)
    ensures r.Keys == tweets.Keys
    ensures forall k :: k in tweets && k != t ==> r[k] == tweets[k]
    ensures t in tweets ==> r[t] == tweets[t].(likesCount := tweets[t].likesCount + d)
  {
    if t in tweets then tweets[t := tweets[t].(likesCount := tweets[t].likesCount + d)] else tweets
  }

  /** The like records, the tweets and the status after one request by
      `user`. An existing like is removed and an absent one created, whether
      or not the tweet exists; a missing tweet gives 404 only afterwards. */
  function LikeStep(likes: set<(UserId, TweetId)>, tweets: map<TweetId, Tweet>, user: UserId, tweet: IdParam)
    : (r: (set<(UserId, TweetId)>, map<TweetId, Tweet>, nat))
    ensures r.2 == BAD_REQUEST <==> tweet.Malformed?
    ensures tweet.Malformed? ==> r.0 == likes && r.1 == tweets
    ensures tweet.ObjectId? ==>
      && ((user, tweet.id) in r.0 <==> (user, tweet.id) !in likes)
      && r.0 - {(user, tweet.id)} == likes - {(user, tweet.id)}
      && (r.2 == NOT_FOUND <==> tweet.id !in tweets)
      && (r.2 == OK <==> tweet.id in tweets && (user, tweet.id) in likes)
      && (r.2 == CREATED <==> tweet.id in tweets && (user, tweet.id) !in likes)
    ensures r.1.Keys == tweets.Keys
    ensures tweet.ObjectId? && tweet.id in tweets ==>
      r.1[tweet.id] == tweets[tweet.id].(likesCount := r.1[tweet.id].likesCount)
    ensures tweet.ObjectId? && tweet.id in tweets ==>
      r.1[tweet.id].likesCount == tweets[tweet.id].likesCount + (if (user, tweet.id) in likes then -1 else 1)
    ensures forall k :: k in tweets && (tweet.Malformed? || k != tweet.id) ==> r.1[k] == tweets[k]
  {
    match tweet
    case Malformed => (likes, tweets, BAD_REQUEST)
    case ObjectId(t) =>
      if (user, t) in likes then
        (likes - {(user, t)}, IncLikes(tweets, t, -1), if t in tweets then OK else NOT_FOUND)
      else
        (likes + {(user, t)}, IncLikes(tweets, t, 1), if t in tweets then CREATED else NOT_FOUND)
  }

  /** Adding or removing one like record moves only that tweet's likers, by
      exactly that user. */
  lemma LikersAfterToggle(likes: set<(UserId, TweetId)>, u: UserId, t: TweetId, k: TweetId)
    ensures (u, t) !in likes ==>
      Likers(likes + {(u, t)}, k) == if k == t then Likers(likes, k) + {u} else Likers(likes, k)
    ensures (u, t) in likes ==>
      Likers(likes - {(u, t)}, k) == if k == t then Likers(likes, k) - {u} else Likers(likes, k)
  {
  }

  /** Every request keeps `likesCount` equal to the number of like records of
      each existing tweet. */
  lemma LikeStepKeepsCounts(likes: set<(UserId, TweetId)>, tweets: map<TweetId, Tweet>, user: UserId, tweet: IdParam)
    requires LikeCountsOk(likes, tweets)
    ensures LikeCountsOk(LikeStep(likes, tweets, user, tweet).0, LikeStep(likes, tweets, user, tweet).1)
  {
    if tweet.ObjectId? {
      var t := tweet.id;
      var (l2, t2, _) := LikeStep(likes, tweets, user, tweet);
      forall k | k in t2 ensures t2[k].likesCount == |Likers(l2, k)| {
        LikersAfterToggle(likes, user, t, k);
        if k == t {
          assert user in Likers(likes, t) <==> (user, t) in likes;
        }
      }
    }
  }

  /** A second identical request undoes the first: the like records and every
      tweet are back as they were, and the two statuses are 201 and 200 (or
      404 twice for a missing tweet). */
  lemma LikeTwiceRestores(likes: set<(UserId, TweetId)>, tweets: map<TweetId, Tweet>, user: UserId, t: TweetId)
    ensures var (l1, t1, s1) := LikeStep(likes, tweets, user, ObjectId(t));
      var (l2, t2, s2) := LikeStep(l1, t1, user, ObjectId(t));
      && l2 == likes && t2 == tweets
      && (t in tweets ==> {s1, s2} == {OK, CREATED})
      && (t !in tweets ==> s1 == s2 == NOT_FOUND)
  {
    var (l1, t1, s1) := LikeStep(likes, tweets, user, ObjectId(t));
    var (l2, t2, s2) := LikeStep(l1, t1, user, ObjectId(t));
    if t in tweets {
      assert t2[t] == tweets[t];
      assert t2 == tweets;
    }
  }

  /** The handler: looks for the caller's like, deletes or creates it, then
      applies `$inc` to the tweet. */
  method ToggleLike(db: Db, user: UserId, tweet: IdParam) returns (status: nat)
    modifies db`likes, db`tweets
    ensures (db.likes, db.tweets, status) == LikeStep(old(db.likes), old(db.tweets), user, tweet)
  {
    if tweet.Malformed? {
      return BAD_REQUEST;
    }
    var t := tweet.id;
    if (user, t) in db.likes {
      db.likes := db.likes - {(user, t)};
      if t !in db.tweets {
        return NOT_FOUND;
      }
      db.tweets := db.tweets[t := db.tweets[t].(likesCount := db.tweets[t].likesCount - 1)];
      return OK;
    }
    db.likes := db.likes + {(user, t)};
    if t !in db.tweets {
      return NOT_FOUND;
    }
    db.tweets := db.tweets[t := db.tweets[t].(likesCount := db.tweets[t].likesCount + 1)];
    return CREATED;
  }
}
