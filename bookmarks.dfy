/** backEnd/src/controllers/bookmark.controller.js: `toggleBookmark` adds or
    removes the caller's bookmark of a tweet and touches nothing else;
    `getUserBookmarks` lists the caller's bookmarks with the bookmarked
    tweets. */
module Bookmarks {
  import opened Wrappers
  import opened TweetModel
  import opened Store
  import opened Views

  /** The bookmark records and the status after one request by `user`. The
      tweet is not looked up: a bookmark of a missing tweet is created like
      any other. */
  function BookmarkStep(bookmarks: set<(UserId, TweetId)>, user: UserId, tweet: IdParam)
    : (r: (set<(UserId, TweetId)>, nat))
    ensures r.1 == BAD_REQUEST <==> tweet.Malformed?
    ensures tweet.Malformed? ==> r.0 == bookmarks
    ensures tweet.ObjectId? ==>
      && ((user, tweet.id) in r.0 <==> (user, tweet.id) !in bookmarks)
      && r.0 - {(user, tweet.id)} == bookmarks - {(user, tweet.id)}
      && (r.1 == OK <==> (user, tweet.id) in bookmarks)
      && (r.1 == CREATED <==> (user, tweet.id) !in bookmarks)
  {
    match tweet
    case Malformed => (bookmarks, BAD_REQUEST)
    case ObjectId(t) =>
      if (user, t) in bookmarks then (bookmarks - {(user, t)}, OK)
      else (bookmarks + {(user, t)}, CREATED)
  }

  /** A second identical request restores the bookmark records; the two
      statuses are 200 and 201. */
  lemma BookmarkTwiceRestores(bookmarks: set<(UserId, TweetId)>, user: UserId, t: TweetId)
    ensures var (b1, s1) := BookmarkStep(bookmarks, user, ObjectId(t));
      var (b2, s2) := BookmarkStep(b1, user, ObjectId(t));
      b2 == bookmarks && {s1, s2} == {OK, CREATED}
  {
    var e := (user, t);
    if e in bookmarks {
      assert (bookmarks - {e}) + {e} == bookmarks;
    } else {
      assert (bookmarks + {e}) - {e} == bookmarks;
    }
  }

  /** The handler. Its frame is the bookmark collection alone, so no tweet,
      user or counter changes. */
  method ToggleBookmark(db: Db, user: UserId, tweet: IdParam) returns (status: nat)
    modifies db`bookmarks
    ensures (db.bookmarks, status) == BookmarkStep(old(db.bookmarks), user, tweet)
  {
    if tweet.Malformed? {
      return BAD_REQUEST;
    }
    var e := (user, tweet.id);
    if e in db.bookmarks {
      db.bookmarks := db.bookmarks - {e};
      return OK;
    }
    db.bookmarks := db.bookmarks + {e};
    return CREATED;
  }

  /** `getUserBookmarks`: one entry per tweet the caller bookmarked. The
      tweet lookup is not unwound, so a bookmark whose tweet (or whose
      tweet's author) is gone stays, with no tweet (`None`). The bookmarked
      tweet itself is shown whatever its visibility; only a private quote of
      someone else is redacted. */
  function UserBookmarks(bookmarks: set<(UserId, TweetId)>, tweets: map<TweetId, Tweet>, users: map<UserId, Profile>,
                         user: UserId): (r: map<TweetId, Option<TweetView>>)
    ensures forall t :: t in r <==> (user, t) in bookmarks
    ensures forall t :: t in r ==>
      (r[t].Some? <==> t in tweets && tweets[t].author in users)
    ensures forall t :: t in r && r[t].Some? ==>
      && r[t].value.id == t && r[t].value.tweet == tweets[t]
      && (r[t].value.quote.Some? ==> Shown(r[t].value.quote.value, {user}))
    ensures forall t :: t in r && r[t].Some? ==> r[t].value == ViewOf(tweets, users, (t, tweets[t]), {user})
  {
    var mine := set b | b in bookmarks && b.0 == user :: b.1;
    map t | t in mine ::
      if t in tweets && tweets[t].author in users then Some(ViewOf(tweets, users, (t, tweets[t]), {user})) else None
  }

  /** Only the caller's own bookmarks are listed: another user's bookmarks
      never show, and toggling someone else's bookmark leaves the caller's
      listing as it was. */
  lemma BookmarksArePrivate(bookmarks: set<(UserId, TweetId)>, tweets: map<TweetId, Tweet>, users: map<UserId, Profile>,
                            user: UserId, other: UserId, t: TweetId)
    requires other != user
    ensures UserBookmarks(BookmarkStep(bookmarks, other, ObjectId(t)).0, tweets, users, user)
         == UserBookmarks(bookmarks, tweets, users, user)
  {
    var b2 := BookmarkStep(bookmarks, other, ObjectId(t)).0;
    assert forall u :: (user, u) in b2 <==> (user, u) in bookmarks;
  }
}
