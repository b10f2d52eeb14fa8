/** The cached counters of a tweet in backEnd/src/models/tweet.model.js:
    `repliesCount` counts the tweets that reply to it and `retweetCount` the
    tweets that quote it plus the retweet records of
    backEnd/src/models/reTweet.model.js that point at it. The handlers keep
    them with `$inc`; this module says what "in agreement" means. */
module TweetCounters {
  import opened Wrappers
  import opened TweetModel
  import opened Store

  /** The tweets that reply to t. */
  function Replies(tweets: map<TweetId, Tweet>, t: TweetId): (r: set<TweetId>)
  {
    set k | k in tweets && tweets[k].replyTo == Some(t)
  }

  /** The tweets that quote t. */
  function Quotes(tweets: map<TweetId, Tweet>, t: TweetId): (r: set<TweetId>)
  {
    set k | k in tweets && tweets[k].quoteOf == Some(t)
  }

  /** The retweet records of t. */
  function Reposts(retweets: map<RetweetId, Retweet>, t: TweetId): (r: set<RetweetId>)
  {
    set k | k in retweets && retweets[k].tweet == t
  }

  /** Tweet k's flags agree with its links, and it links not to itself. */
  predicate LinksOk(k: TweetId, t: Tweet) {
    && (t.isReply <==> t.replyTo.Some?)
    && (t.isQuote <==> t.quoteOf.Some?)
    && t.replyTo != Some(k) && t.quoteOf != Some(k)
  }

  /** Every tweet's flags agree with its links. */
  predicate WellFormed(tweets: map<TweetId, Tweet>) {
    forall k {:trigger LinksOk(k, tweets[k])} :: k in tweets ==> LinksOk(k, tweets[k])
  }

  /** Tweet t's counters agree with the records. */
  predicate CountsAt(tweets: map<TweetId, Tweet>, retweets: map<RetweetId, Retweet>, t: TweetId)
    requires t in tweets
  {
    && tweets[t].repliesCount == |Replies(tweets, t)|
    && tweets[t].retweetCount == |Quotes(tweets, t)| + |Reposts(retweets, t)|
  }

  /** Every existing tweet's counters agree with the records. */
  predicate CountersOk(tweets: map<TweetId, Tweet>, retweets: map<RetweetId, Retweet>) {
    forall t {:trigger CountsAt(tweets, retweets, t)} :: t in tweets ==> CountsAt(tweets, retweets, t)
  }

  /** A fresh id: no tweet has it and nothing points at it. */
  predicate Unreferenced(tweets: map<TweetId, Tweet>, retweets: map<RetweetId, Retweet>, id: TweetId) {
    && id !in tweets
    && (forall k :: k in tweets ==> tweets[k].replyTo != Some(id) && tweets[k].quoteOf != Some(id))
    && (forall k :: k in retweets ==> retweets[k].tweet != id)
  }

  /** Two tweet collections with the same ids and the same links and flags. */
  predicate SameLinks(a: map<TweetId, Tweet>, b: map<TweetId, Tweet>) {
    (forall k :: k in a ==> k in b) && (forall k :: k in b ==> k in a) &&
    forall k :: k in a ==> LinksEqual(a[k], b[k])
  }

  /** Two versions of a tweet with the same links and flags. */
  predicate LinksEqual(a: Tweet, b: Tweet) {
    a.replyTo == b.replyTo && a.quoteOf == b.quoteOf && a.isReply == b.isReply && a.isQuote == b.isQuote
  }

  lemma SameLinksSameSets(a: map<TweetId, Tweet>, b: map<TweetId, Tweet>, t: TweetId)
    requires SameLinks(a, b)
    ensures Replies(a, t) == Replies(b, t) && Quotes(a, t) == Quotes(b, t)
  {
    assert forall k :: k in Replies(a, t) <==> k in Replies(b, t);
    assert forall k :: k in Quotes(a, t) <==> k in Quotes(b, t);
  }

  /** Two versions of a tweet that differ at most in their counters. */
  predicate SameButCounters(a: Tweet, b: Tweet) {
    a == b.(repliesCount := a.repliesCount, retweetCount := a.retweetCount)
  }

  /** `findByIdAndUpdate(t, { $inc: { repliesCount: d } })`: no effect when t
      does not exist. */
  function IncReplies(tweets: map<TweetId, Tweet>, t: TweetId, d: int): (r: map<TweetId, Tweet>)
    ensures r.Keys == tweets.Keys
    ensures forall k :: k in r ==>
      && SameButCounters(r[k], tweets[k])
      && r[k].repliesCount == tweets[k].repliesCount + (if k == t then d else 0)
      && r[k].retweetCount == tweets[k].retweetCount
  {
    if t in tweets then tweets[t := tweets[t].(repliesCount := tweets[t].repliesCount + d)] else tweets
  }

  /** `findByIdAndUpdate(t, { $inc: { retweetCount: d } })`. */
  function IncRetweets(tweets: map<TweetId, Tweet>, t: TweetId, d: int): (r: map<TweetId, Tweet>)
    ensures r.Keys == tweets.Keys
    ensures forall k :: k in r ==>
      && SameButCounters(r[k], tweets[k])
      && r[k].repliesCount == tweets[k].repliesCount
      && r[k].retweetCount == tweets[k].retweetCount + (if k == t then d else 0)
  {
    if t in tweets then tweets[t := tweets[t].(retweetCount := tweets[t].retweetCount + d)] else tweets
  }

  /** Adding a tweet under a fresh id adds it to the replies of its parent
      and to nothing else. */
  lemma RepliesAfterInsert(tweets: map<TweetId, Tweet>, id: TweetId, nt: Tweet, t: TweetId)
    requires id !in tweets
    ensures |Replies(tweets[id := nt], t)| == |Replies(tweets, t)| + (if nt.replyTo == Some(t) then 1 else 0)
  {
    var before := Replies(tweets, t);
    var after := Replies(tweets[id := nt], t);
    assert id !in before;
    if nt.replyTo == Some(t) {
      assert after == before + {id};
    } else {
      assert after == before;
    }
  }

  /** Adding a tweet under a fresh id adds it to the quotes of its quoted
      tweet and to nothing else. */
  lemma QuotesAfterInsert(tweets: map<TweetId, Tweet>, id: TweetId, nt: Tweet, t: TweetId)
    requires id !in tweets
    ensures |Quotes(tweets[id := nt], t)| == |Quotes(tweets, t)| + (if nt.quoteOf == Some(t) then 1 else 0)
  {
    var before := Quotes(tweets, t);
    var after := Quotes(tweets[id := nt], t);
    assert id !in before;
    if nt.quoteOf == Some(t) {
      assert after == before + {id};
    } else {
      assert after == before;
    }
  }

  /** Removing a tweet takes it out of the replies of its parent and the
      quotes of its quoted tweet, and out of nothing else. */
  lemma LinksAfterRemove(tweets: map<TweetId, Tweet>, id: TweetId, t: TweetId)
    requires id in tweets
    ensures |Replies(tweets - {id}, t)| == |Replies(tweets, t)| - (if tweets[id].replyTo == Some(t) then 1 else 0)
    ensures |Quotes(tweets - {id}, t)| == |Quotes(tweets, t)| - (if tweets[id].quoteOf == Some(t) then 1 else 0)
  {
    assert Replies(tweets - {id}, t) == Replies(tweets, t) - {id};
    assert Quotes(tweets - {id}, t) == Quotes(tweets, t) - {id};
  }

  /** Changing fields other than the links and counters keeps the agreement. */
  lemma CountersOkUnderEdit(tweets: map<TweetId, Tweet>, retweets: map<RetweetId, Retweet>, t: TweetId, nt: Tweet)
    requires CountersOk(tweets, retweets) && t in tweets
    requires nt.replyTo == tweets[t].replyTo && nt.quoteOf == tweets[t].quoteOf
    requires nt.isReply == tweets[t].isReply && nt.isQuote == tweets[t].isQuote
    requires nt.repliesCount == tweets[t].repliesCount && nt.retweetCount == tweets[t].retweetCount
    ensures CountersOk(tweets[t := nt], retweets)
    ensures WellFormed(tweets) ==> WellFormed(tweets[t := nt])
  {
    var after := tweets[t := nt];
    assert SameLinks(tweets, after);
    forall k | k in after
      ensures CountsAt(after, retweets, k)
    {
      EditCountAt(tweets, retweets, after, k);
    }
    if WellFormed(tweets) {
      forall k | k in after ensures LinksOk(k, after[k]) {
        assert LinksOk(k, tweets[k]);
      }
    }
  }

  lemma EditCountAt(tweets: map<TweetId, Tweet>, retweets: map<RetweetId, Retweet>, after: map<TweetId, Tweet>, k: TweetId)
    requires SameLinks(tweets, after) && k in tweets
    requires CountsAt(tweets, retweets, k)
    requires after[k].repliesCount == tweets[k].repliesCount && after[k].retweetCount == tweets[k].retweetCount
    ensures CountsAt(after, retweets, k)
  {
    SameLinksSameSets(tweets, after, k);
  }

  /** The agreement at one old tweet k survives storing a new tweet when k's
      counters moved by exactly the new links to k. */
  lemma InsertCountAt(tweets: map<TweetId, Tweet>, retweets: map<RetweetId, Retweet>, raised: map<TweetId, Tweet>,
                      id: TweetId, nt: Tweet, k: TweetId)
    requires id !in tweets && SameLinks(tweets, raised) && k in tweets
    requires CountsAt(tweets, retweets, k)
    requires raised[k].repliesCount == tweets[k].repliesCount + (if nt.replyTo == Some(k) then 1 else 0)
    requires raised[k].retweetCount == tweets[k].retweetCount + (if nt.quoteOf == Some(k) then 1 else 0)
    ensures CountsAt(raised[id := nt], retweets, k)
  {
    SameLinksSameSets(tweets, raised, k);
    RepliesAfterInsert(raised, id, nt, k);
    QuotesAfterInsert(raised, id, nt, k);
  }

  /** A new tweet under a fresh id starts in agreement: nothing replies to
      it, quotes it or reposts it. */
  lemma FreshCountAt(tweets: map<TweetId, Tweet>, retweets: map<RetweetId, Retweet>, raised: map<TweetId, Tweet>,
                     id: TweetId, nt: Tweet)
    requires Unreferenced(tweets, retweets, id) && SameLinks(tweets, raised)
    requires nt.repliesCount == 0 && nt.retweetCount == 0
    requires nt.replyTo != Some(id) && nt.quoteOf != Some(id)
    ensures CountsAt(raised[id := nt], retweets, id)
  {
    SameLinksSameSets(tweets, raised, id);
    RepliesAfterInsert(raised, id, nt, id);
    QuotesAfterInsert(raised, id, nt, id);
    assert Replies(tweets, id) == {} && Quotes(tweets, id) == {} && Reposts(retweets, id) == {};
  }

  /** Storing a new tweet under a fresh id, with zero counters and its
      parent's and quoted tweet's counters raised by one, keeps the
      agreement and the collection well formed. */
  lemma CountersAfterInsert(tweets: map<TweetId, Tweet>, retweets: map<RetweetId, Retweet>, raised: map<TweetId, Tweet>,
                            id: TweetId, nt: Tweet)
    requires CountersOk(tweets, retweets) && WellFormed(tweets) && Unreferenced(tweets, retweets, id)
    requires SameLinks(tweets, raised)
    requires nt.repliesCount == 0 && nt.retweetCount == 0
    requires (nt.isReply <==> nt.replyTo.Some?) && (nt.isQuote <==> nt.quoteOf.Some?)
    requires nt.replyTo.Some? ==> nt.replyTo.value in tweets
    requires nt.quoteOf.Some? ==> nt.quoteOf.value in tweets
    requires forall k :: k in tweets ==>
      && raised[k].repliesCount == tweets[k].repliesCount + (if nt.replyTo == Some(k) then 1 else 0)
      && raised[k].retweetCount == tweets[k].retweetCount + (if nt.quoteOf == Some(k) then 1 else 0)
    ensures CountersOk(raised[id := nt], retweets) && WellFormed(raised[id := nt])
  {
    var after := raised[id := nt];
    forall k | k in after
      ensures CountsAt(after, retweets, k)
    {
      if k == id {
        FreshCountAt(tweets, retweets, raised, id, nt);
      } else {
        InsertCountAt(tweets, retweets, raised, id, nt, k);
      }
    }
    forall k | k in after ensures LinksOk(k, after[k]) {
      if k != id {
        assert LinksOk(k, tweets[k]);
      }
    }
  }

  /** The agreement at one remaining tweet k survives deleting tweet id when
      k's counters moved by exactly the links from id to k. */
  lemma RemoveCountAt(tweets: map<TweetId, Tweet>, retweets: map<RetweetId, Retweet>, after: map<TweetId, Tweet>,
                      id: TweetId, k: TweetId)
    requires id in tweets && SameLinks(tweets - {id}, after) && k in after
    requires CountsAt(tweets, retweets, k)
    requires after[k].repliesCount == tweets[k].repliesCount - (if tweets[id].replyTo == Some(k) then 1 else 0)
    requires after[k].retweetCount == tweets[k].retweetCount - (if tweets[id].quoteOf == Some(k) then 1 else 0)
    ensures CountsAt(after, retweets, k)
  {
    SameLinksSameSets(tweets - {id}, after, k);
    LinksAfterRemove(tweets, id, k);
  }

  /** Deleting a tweet, with its parent's and quoted tweet's counters
      lowered by one, keeps the agreement and the collection well formed. */
  lemma CountersAfterRemove(tweets: map<TweetId, Tweet>, retweets: map<RetweetId, Retweet>, after: map<TweetId, Tweet>,
                            id: TweetId)
    requires CountersOk(tweets, retweets) && WellFormed(tweets) && id in tweets
    requires SameLinks(tweets - {id}, after)
    requires forall k :: k in after ==>
      && after[k].repliesCount == tweets[k].repliesCount - (if tweets[id].replyTo == Some(k) then 1 else 0)
      && after[k].retweetCount == tweets[k].retweetCount - (if tweets[id].quoteOf == Some(k) then 1 else 0)
    ensures CountersOk(after, retweets) && WellFormed(after)
  {
    forall k | k in after
      ensures CountsAt(after, retweets, k)
    {
      RemoveCountAt(tweets, retweets, after, id, k);
    }
    forall k | k in after ensures LinksOk(k, after[k]) {
      assert LinksOk(k, tweets[k]);
    }
  }
}
