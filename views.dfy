/** The shape every tweet-listing handler of backEnd/src/controllers gives a
    tweet: the tweet, its quoted tweet after the lookup and the redaction of
    private quotes, and the `isLiked`/`isRetweeted` flags. Also the
    newest-first order of `$sort: { createdAt: -1 }`. */
module Views {
  import opened Wrappers
  import opened TweetModel
  import opened Store
  import opened Collections
  import opened Paging

  /** A tweet as a read handler returns it. */
  datatype TweetView = TweetView(id: TweetId, tweet: Tweet, quote: Option<Tweet>, isLiked: bool, isRetweeted: bool)

  /** A tweet whose author is among `insiders`, or that is not private. */
  predicate Shown(t: Tweet, insiders: set<UserId>) {
    t.visibility != Private || t.author in insiders
  }

  /** The `$lookup` of `quoteOf` followed by `$unwind` with
      `preserveNullAndEmptyArrays`: the quoted tweet when it exists, and its
      author too (the inner `$unwind` of the author drops it otherwise). */
  function QuoteOf(tweets: map<TweetId, Tweet>, users: map<UserId, Profile>, t: Tweet): (r: Option<Tweet>)
    ensures r.Some? <==> t.quoteOf.Some? && t.quoteOf.value in tweets && tweets[t.quoteOf.value].author in users
    ensures r.Some? ==> r.value == tweets[t.quoteOf.value]
  {
    match t.quoteOf
    case None => None
    case Some(q) => if q in tweets && tweets[q].author in users then Some(tweets[q]) else None
  }

  /** The redaction: a private quoted tweet becomes null for anyone whose id
      is not among `insiders`. */
  function Redact(q: Option<Tweet>, insiders: set<UserId>): (r: Option<Tweet>)
    ensures r.Some? <==> q.Some? && Shown(q.value, insiders)
    ensures r.Some? ==> r == q
  {
    if q.Some? && !Shown(q.value, insiders) then None else q
  }

  /** One tweet as listed. The flags test `likes`/`retweets` arrays that a
      tweet document does not have, so they are always false. */
  function ViewOf(tweets: map<TweetId, Tweet>, users: map<UserId, Profile>, rec: (TweetId, Tweet), insiders: set<UserId>)
    : (v: TweetView)
    ensures v.id == rec.0 && v.tweet == rec.1
    ensures !v.isLiked && !v.isRetweeted
    ensures v.quote.Some? <==>
      rec.1.quoteOf.Some? && rec.1.quoteOf.value in tweets
      && tweets[rec.1.quoteOf.value].author in users && Shown(tweets[rec.1.quoteOf.value], insiders)
    ensures v.quote.Some? ==> v.quote.value == tweets[rec.1.quoteOf.value]
  {
    TweetView(rec.0, rec.1, Redact(QuoteOf(tweets, users, rec.1), insiders), false, false)
  }

  /** A page of tweets as listed, in the page's order. */
  function ViewAll(tweets: map<TweetId, Tweet>, users: map<UserId, Profile>, page: seq<(TweetId, Tweet)>, insiders: set<UserId>)
    : (r: seq<TweetView>)
    ensures |r| == |page|
    ensures forall i :: 0 <= i < |r| ==> r[i].id == page[i].0 && r[i].tweet == page[i].1
    ensures forall i :: 0 <= i < |r| ==> r[i].quote.Some? ==> Shown(r[i].quote.value, insiders)
    ensures forall i :: 0 <= i < |r| ==> r[i] == ViewOf(tweets, users, page[i], insiders)
  {
    seq(|page|, i requires 0 <= i < |page| => ViewOf(tweets, users, page[i], insiders))
  }

  /** No listed quote is a private tweet of someone outside `insiders`. */
  lemma NoPrivateQuoteLeaks(tweets: map<TweetId, Tweet>, users: map<UserId, Profile>, page: seq<(TweetId, Tweet)>, insiders: set<UserId>)
    ensures forall v :: v in ViewAll(tweets, users, page, insiders) && v.quote.Some? ==>
      v.quote.value.visibility != Private || v.quote.value.author in insiders
  {
  }

  /** `$unwind: '$author'` after the author lookup: a tweet whose author no
      longer exists is dropped. */
  function AuthorExists(users: map<UserId, Profile>): ((TweetId, Tweet)) -> bool {
    (rec: (TweetId, Tweet)) => rec.1.author in users
  }

  /** `$sort: { createdAt: -1 }`. */
  function NewestFirst(a: (TweetId, Tweet), b: (TweetId, Tweet)): bool {
    a.1.createdAt >= b.1.createdAt
  }

  lemma NewestFirstIsPreorder()
    ensures Total(NewestFirst) && Transitive(NewestFirst)
  {
  }

  /** The matching tweets of a collection, newest first. */
  function Newest(tweets: map<TweetId, Tweet>, p: ((TweetId, Tweet)) -> bool): (r: seq<(TweetId, Tweet)>)
    ensures SortedBy(r, NewestFirst)
    ensures forall rec :: rec in r <==> rec.0 in tweets && tweets[rec.0] == rec.1 && p(rec)
    ensures |r| == Count(Records(tweets), p)
  {
    NewestFirstIsPreorder();
    SortedMatches(tweets, p, NewestFirst)
  }

  /** Views in newest-first order. */
  predicate NewestFirstViews(vs: seq<TweetView>) {
    forall i, j :: 0 <= i < j < |vs| ==> vs[i].tweet.createdAt >= vs[j].tweet.createdAt
  }

  /** The documents of one page of a tweet listing: `$match` by `p`,
      `$sort` newest first, `$skip`/`$limit`, then the author `$unwind` that
      drops tweets of deleted users. */
  function PageRecords(tweets: map<TweetId, Tweet>, users: map<UserId, Profile>, p: ((TweetId, Tweet)) -> bool,
                       page: nat, limit: nat): (r: seq<(TweetId, Tweet)>)
    requires page >= 1 && limit >= 1
    ensures |r| <= limit
    ensures SortedBy(r, NewestFirst)
    ensures forall rec :: rec in r ==> rec.0 in tweets && tweets[rec.0] == rec.1 && p(rec) && rec.1.author in users
    ensures r == Filter(PageSlice(Newest(tweets, p), page, limit), AuthorExists(users))
  {
    var all := Newest(tweets, p);
    PageSliceSorted(all, page, limit, NewestFirst);
    var slice := PageSlice(all, page, limit);
    FilterKeepsSorted(slice, AuthorExists(users), NewestFirst);
    Filter(slice, AuthorExists(users))
  }

  /** A listed view of a tweet of the collection that satisfies the
      listing's match, whose author exists, and whose quote is shown to
      `insiders`. */
  predicate Listed(tweets: map<TweetId, Tweet>, users: map<UserId, Profile>, p: ((TweetId, Tweet)) -> bool,
                   insiders: set<UserId>, v: TweetView) {
    && v.id in tweets && tweets[v.id] == v.tweet && p((v.id, v.tweet)) && v.tweet.author in users
    && (v.quote.Some? ==> Shown(v.quote.value, insiders))
  }

  /** Viewing keeps the order of the documents and their properties. */
  lemma ViewAllListed(tweets: map<TweetId, Tweet>, users: map<UserId, Profile>, p: ((TweetId, Tweet)) -> bool,
                      insiders: set<UserId>, kept: seq<(TweetId, Tweet)>)
    requires SortedBy(kept, NewestFirst)
    requires forall rec :: rec in kept ==> rec.0 in tweets && tweets[rec.0] == rec.1 && p(rec) && rec.1.author in users
    ensures NewestFirstViews(ViewAll(tweets, users, kept, insiders))
    ensures forall v :: v in ViewAll(tweets, users, kept, insiders) ==> Listed(tweets, users, p, insiders, v)
  {
    var r := ViewAll(tweets, users, kept, insiders);
    forall v | v in r ensures Listed(tweets, users, p, insiders, v) {
      var i :| 0 <= i < |r| && r[i] == v;
      assert kept[i] in kept;
    }
  }

  /** One page of a tweet listing as returned: the page's documents with the
      quote lookup and the redaction for `insiders`. */
  function ListPage(tweets: map<TweetId, Tweet>, users: map<UserId, Profile>, p: ((TweetId, Tweet)) -> bool,
                    page: nat, limit: nat, insiders: set<UserId>): (r: seq<TweetView>)
    requires page >= 1 && limit >= 1
    ensures |r| <= limit
    ensures NewestFirstViews(r)
    ensures forall v :: v in r ==> Listed(tweets, users, p, insiders, v)
    ensures r == ViewAll(tweets, users, PageRecords(tweets, users, p, page, limit), insiders)
  {
    var kept := PageRecords(tweets, users, p, page, limit);
    ViewAllListed(tweets, users, p, insiders, kept);
    ViewAll(tweets, users, kept, insiders)
  }

  /** An element of a list that satisfies the filter is kept by it. */
  lemma FilterHas(s: seq<(TweetId, Tweet)>, f: ((TweetId, Tweet)) -> bool, x: (TweetId, Tweet))
    requires x in s && f(x)
    ensures x in Filter(s, f)
  {
  }

  /** Every tweet the listing matches, whose author exists, is on a page:
      the page that holds its position in the newest-first order. */
  lemma EveryTweetOnAPage(tweets: map<TweetId, Tweet>, users: map<UserId, Profile>, p: ((TweetId, Tweet)) -> bool,
                          limit: nat, id: TweetId)
    requires limit >= 1
    requires id in tweets && p((id, tweets[id])) && tweets[id].author in users
    ensures exists page: nat :: page >= 1 && (id, tweets[id]) in PageRecords(tweets, users, p, page, limit)
  {
    var rec := (id, tweets[id]);
    var all := Newest(tweets, p);
    assert rec in all;
    var page := OnSomePage(all, rec, limit);
    FilterHas(PageSlice(all, page, limit), AuthorExists(users), rec);
    assert rec in PageRecords(tweets, users, p, page, limit);
  }

  /** Every tweet the listing matches, whose author exists, is listed on a
      page, with its quote looked up and redacted for `insiders`. */
  lemma EveryTweetListed(tweets: map<TweetId, Tweet>, users: map<UserId, Profile>, p: ((TweetId, Tweet)) -> bool,
                         limit: nat, insiders: set<UserId>, id: TweetId)
    requires limit >= 1
    requires id in tweets && p((id, tweets[id])) && tweets[id].author in users
    ensures exists page :: page >= 1 && ViewOf(tweets, users, (id, tweets[id]), insiders) in ListPage(tweets, users, p, page, limit, insiders)
  {
    EveryTweetOnAPage(tweets, users, p, limit, id);
    var page :| page >= 1 && (id, tweets[id]) in PageRecords(tweets, users, p, page, limit);
    var kept := PageRecords(tweets, users, p, page, limit);
    var i :| 0 <= i < |kept| && kept[i] == (id, tweets[id]);
    var listed := ListPage(tweets, users, p, page, limit, insiders);
    assert listed == ViewAll(tweets, users, kept, insiders);
    assert listed[i] == ViewOf(tweets, users, (id, tweets[id]), insiders);
    assert ViewOf(tweets, users, (id, tweets[id]), insiders) in ListPage(tweets, users, p, page, limit, insiders);
  }
}
