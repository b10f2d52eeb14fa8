/** The write handlers of backEnd/src/controllers/tweet.controller.js:
    `createTweet`, `updateTweet`, `deleteTweet` and `toggleTweetPin`, with
    their checks, their uploads and the `$inc` updates of the parent and
    quoted tweets' counters. */
module TweetWrites {
  import opened Wrappers
  import opened Text
  import opened TweetModel
  import opened Store
  import opened Media
  import opened TweetCounters

  /** The body and files of a `createTweet` request. An absent or empty
      `replyTo`/`quoteOf` is `None`. */
  datatype TweetRequest = TweetRequest(
    content: Option<string>,
    files: seq<Upload>,
    visibility: Option<string>,
    replyTo: Option<IdParam>,
    quoteOf: Option<IdParam>)

  /** Content that is present, not blank and at most 280 characters long,
      measured before trimming. */
  predicate ContentOk(content: string) {
    !AllSpace(content) && |content| <= MAX_CONTENT
  }

  /** The checks of `createTweet` before any lookup, and the upload loop:
      400 for missing, blank or over-long content or more than four files,
      then the per-file rules. On success, the URLs of the files in order. */
  function CheckTweetInput(content: Option<string>, files: seq<Upload>, upload: nat -> string)
    : (r: Checked<seq<string>>)
    ensures r.Pass? <==>
      && content.Some? && ContentOk(content.value) && |files| <= MAX_TWEET_FILES
      && forall i :: 0 <= i < |files| ==> TweetFileVerdict(files[i]) != Reject && upload(i) != ""
    ensures r.Pass? ==> |r.value| == |files| && forall i :: 0 <= i < |files| ==> r.value[i] == upload(i)
    ensures r.Stop? ==> r.status in {BAD_REQUEST, SERVER_ERROR}
    ensures r == Stop(SERVER_ERROR) ==> content.Some? && ContentOk(content.value) && |files| <= MAX_TWEET_FILES
  {
    if content.None? || AllSpace(content.value) || |content.value| > MAX_CONTENT then Stop(BAD_REQUEST)
    else if |files| > MAX_TWEET_FILES then Stop(BAD_REQUEST)
    else
      TweetFilesNeverSkipped();
      UploadAllOrNothing(files, TweetFileVerdict, upload);
      match UploadSpec(files, TweetFileVerdict, upload, 0)
      case Stop(s) => Stop(s)
      case Pass(ms) => Pass(Urls(ms))
  }

  /** `findById` of a `replyTo` or `quoteOf` id: nothing to do when absent,
      500 for an id that does not parse (the cast error has no status), 404
      when no tweet has it. */
  function LinkTarget(tweets: map<TweetId, Tweet>, link: Option<IdParam>): (r: Checked<Option<TweetId>>)
    ensures r.Pass? <==> LinkOk(tweets, link)
    ensures r.Pass? ==> (r.value.Some? <==> link.Some?) && (r.value.Some? ==> link.value == ObjectId(r.value.value))
    ensures r.Stop? ==> (r.status == SERVER_ERROR <==> link == Some(Malformed))
    ensures r.Stop? ==> r.status in {NOT_FOUND, SERVER_ERROR}
  {
    match link
    case None => Pass(None)
    case Some(Malformed) => Stop(SERVER_ERROR)
    case Some(ObjectId(p)) => if p in tweets then Pass(Some(p)) else Stop(NOT_FOUND)
  }

  /** A link that is absent or names an existing tweet. */
  predicate LinkOk(tweets: map<TweetId, Tweet>, link: Option<IdParam>) {
    link.None? || (link.value.ObjectId? && link.value.id in tweets)
  }

  /** The visibility a request asks for: "public" when absent, and `None`
      when the schema's enum refuses the string. */
  function RequestedVisibility(v: Option<string>): (r: Option<Visibility>)
    ensures v.None? ==> r == Some(Public)
    ensures v.Some? && r.Some? ==> VisibilityName(r.value) == v.value
  {
    if v.None? then Some(Public) else ParseVisibility(v.value)
  }

  /** The second half of `createTweet`, once the input passed: the
      `replyTo` and `quoteOf` lookups, each raising its tweet's counter as
      soon as it is found, then `Tweet.create`, which refuses a visibility
      outside the enum. A later failure does not undo an earlier raise. */
  function Publish(tweets: map<TweetId, Tweet>, author: UserId, content: string, media: seq<string>,
                   visibility: Option<string>, replyTo: Option<IdParam>, quoteOf: Option<IdParam>,
                   id: TweetId, now: nat): (r: (map<TweetId, Tweet>, Result<TweetId>))
    requires id !in tweets
    ensures r.1.Ok? <==> LinkOk(tweets, replyTo) && LinkOk(tweets, quoteOf) && RequestedVisibility(visibility).Some?
    ensures r.1.Fail? ==> r.1.status in {NOT_FOUND, SERVER_ERROR} && r.0.Keys == tweets.Keys
    ensures r.1.Ok? ==> r.1 == Ok(CREATED, id) && r.0.Keys == tweets.Keys + {id}
  {
    match LinkTarget(tweets, replyTo)
    case Stop(s) => (tweets, Fail(s))
    case Pass(parent) =>
      var t1 := RaiseReplies(tweets, parent);
      match LinkTarget(t1, quoteOf)
      case Stop(s) => (t1, Fail(s))
      case Pass(quoted) =>
        var t2 := RaiseReposts(t1, quoted);
        match RequestedVisibility(visibility)
        case None => (t2, Fail(SERVER_ERROR))
        case Some(vis) => (t2[id := NewTweet(author, content, media, vis, parent, quoted, now)], Ok(CREATED, id))
  }

  /** The `$inc: { repliesCount: 1 }` of the parent, when there is one. */
  function RaiseReplies(tweets: map<TweetId, Tweet>, parent: Option<TweetId>): (r: map<TweetId, Tweet>)
    ensures r.Keys == tweets.Keys
    ensures forall k :: k in r ==>
      && SameButCounters(r[k], tweets[k])
      && r[k].repliesCount == tweets[k].repliesCount + (if parent == Some(k) then 1 else 0)
      && r[k].retweetCount == tweets[k].retweetCount
  {
    if parent.Some? then IncReplies(tweets, parent.value, 1) else tweets
  }

  /** The `$inc: { retweetCount: 1 }` of the quoted tweet, when there is one. */
  function RaiseReposts(tweets: map<TweetId, Tweet>, quoted: Option<TweetId>): (r: map<TweetId, Tweet>)
    ensures r.Keys == tweets.Keys
    ensures forall k :: k in r ==>
      && SameButCounters(r[k], tweets[k])
      && r[k].repliesCount == tweets[k].repliesCount
      && r[k].retweetCount == tweets[k].retweetCount + (if quoted == Some(k) then 1 else 0)
  {
    if quoted.Some? then IncRetweets(tweets, quoted.value, 1) else tweets
  }

  /** What a publication stores: the new tweet with the given author,
      content, media and visibility, the requested links, zero counters;
      the parent and the quoted tweet gain one on their counter, and no
      other tweet and no link changes. */
  lemma Published(tweets: map<TweetId, Tweet>, author: UserId, content: string, media: seq<string>,
                  visibility: Option<string>, replyTo: Option<IdParam>, quoteOf: Option<IdParam>, id: TweetId, now: nat)
    requires id !in tweets
    requires Publish(tweets, author, content, media, visibility, replyTo, quoteOf, id, now).1.Ok?
    ensures var after := Publish(tweets, author, content, media, visibility, replyTo, quoteOf, id, now).0;
      var t := after[id];
      && t.author == author && t.content == content && t.media == media && t.createdAt == now
      && Some(t.visibility) == RequestedVisibility(visibility)
      && (t.replyTo.Some? <==> replyTo.Some?) && (t.replyTo.Some? ==> replyTo.value == ObjectId(t.replyTo.value))
      && (t.quoteOf.Some? <==> quoteOf.Some?) && (t.quoteOf.Some? ==> quoteOf.value == ObjectId(t.quoteOf.value))
      && (t.isReply <==> t.replyTo.Some?) && (t.isQuote <==> t.quoteOf.Some?)
      && t.likesCount == 0 && t.repliesCount == 0 && t.retweetCount == 0 && !t.pinned
      && (forall k :: k in tweets ==>
            && SameButCounters(after[k], tweets[k])
            && after[k].repliesCount == tweets[k].repliesCount + (if t.replyTo == Some(k) then 1 else 0)
            && after[k].retweetCount == tweets[k].retweetCount + (if t.quoteOf == Some(k) then 1 else 0))
  {
    var parent := LinkTarget(tweets, replyTo).value;
    var t1 := RaiseReplies(tweets, parent);
    var quoted := LinkTarget(t1, quoteOf).value;
    var t2 := RaiseReposts(t1, quoted);
    var t := NewTweet(author, content, media, RequestedVisibility(visibility).value, parent, quoted, now);
    var after := Publish(tweets, author, content, media, visibility, replyTo, quoteOf, id, now).0;
    assert after == t2[id := t];
    RaisedBoth(tweets, parent, quoted);
  }

  /** Both raises together change only the two counters, each by one. */
  lemma RaisedBoth(tweets: map<TweetId, Tweet>, parent: Option<TweetId>, quoted: Option<TweetId>)
    ensures var r := RaiseReposts(RaiseReplies(tweets, parent), quoted);
      forall k :: k in tweets ==>
        && SameButCounters(r[k], tweets[k])
        && r[k].repliesCount == tweets[k].repliesCount + (if parent == Some(k) then 1 else 0)
        && r[k].retweetCount == tweets[k].retweetCount + (if quoted == Some(k) then 1 else 0)
  {
    var t1 := RaiseReplies(tweets, parent);
    var r := RaiseReposts(t1, quoted);
    forall k | k in tweets ensures SameButCounters(r[k], tweets[k]) {
      assert SameButCounters(t1[k], tweets[k]);
      assert SameButCounters(r[k], t1[k]);
    }
  }

  /** `createTweet` by `author`, storing the new tweet under the fresh id
      `id` at time `now`: the input checks and uploads, then the
      publication with the trimmed content. */
  function CreateTweetStep(tweets: map<TweetId, Tweet>, author: UserId, req: TweetRequest, upload: nat -> string,
                           id: TweetId, now: nat): (r: (map<TweetId, Tweet>, Result<TweetId>))
    requires id !in tweets
    ensures r.1.Ok? <==>
      && CheckTweetInput(req.content, req.files, upload).Pass?
      && LinkOk(tweets, req.replyTo) && LinkOk(tweets, req.quoteOf)
      && RequestedVisibility(req.visibility).Some?
    ensures r.1.Fail? ==> r.1.status in {BAD_REQUEST, NOT_FOUND, SERVER_ERROR} && r.0.Keys == tweets.Keys
    ensures r.1 == Fail(BAD_REQUEST) ==> r.0 == tweets
    ensures r.1.Ok? ==> r.1 == Ok(CREATED, id) && r.0.Keys == tweets.Keys + {id}
  {
    match CheckTweetInput(req.content, req.files, upload)
    case Stop(s) => (tweets, Fail(s))
    case Pass(urls) =>
      Publish(tweets, author, Trim(req.content.value), urls, req.visibility, req.replyTo, req.quoteOf, id, now)
  }

  /** A created tweet holds the trimmed content, which the schema accepts,
      and the uploaded URLs in file order. */
  lemma CreatedTweet(tweets: map<TweetId, Tweet>, author: UserId, req: TweetRequest, upload: nat -> string,
                     id: TweetId, now: nat)
    requires id !in tweets
    requires CreateTweetStep(tweets, author, req, upload, id, now).1.Ok?
    ensures var t := CreateTweetStep(tweets, author, req, upload, id, now).0[id];
      && t.author == author && req.content.Some? && t.content == Trim(req.content.value) && Conforms(t)
      && |t.media| == |req.files| && (forall i :: 0 <= i < |req.files| ==> t.media[i] == upload(i))
  {
    var urls := CheckTweetInput(req.content, req.files, upload).value;
    Published(tweets, author, Trim(req.content.value), urls, req.visibility, req.replyTo, req.quoteOf, id, now);
    TrimEmptyIff(req.content.value);
  }

  /** A successful creation keeps every tweet's counters in agreement with
      the records, and the collection well formed, provided the new id is
      fresh. */
  lemma CreateKeepsCounters(tweets: map<TweetId, Tweet>, retweets: map<RetweetId, Retweet>, author: UserId,
                            req: TweetRequest, upload: nat -> string, id: TweetId, now: nat)
    requires Unreferenced(tweets, retweets, id)
    requires CountersOk(tweets, retweets) && WellFormed(tweets)
    requires CreateTweetStep(tweets, author, req, upload, id, now).1.Ok?
    ensures CountersOk(CreateTweetStep(tweets, author, req, upload, id, now).0, retweets)
    ensures WellFormed(CreateTweetStep(tweets, author, req, upload, id, now).0)
  {
    var urls := CheckTweetInput(req.content, req.files, upload).value;
    PublishKeepsCounters(tweets, retweets, author, Trim(req.content.value), urls, req.visibility, req.replyTo, req.quoteOf, id, now);
  }

  /** The same for the publication alone. */
  lemma PublishKeepsCounters(tweets: map<TweetId, Tweet>, retweets: map<RetweetId, Retweet>, author: UserId,
                             content: string, media: seq<string>, visibility: Option<string>,
                             replyTo: Option<IdParam>, quoteOf: Option<IdParam>, id: TweetId, now: nat)
    requires Unreferenced(tweets, retweets, id)
    requires CountersOk(tweets, retweets) && WellFormed(tweets)
    requires Publish(tweets, author, content, media, visibility, replyTo, quoteOf, id, now).1.Ok?
    ensures var after := Publish(tweets, author, content, media, visibility, replyTo, quoteOf, id, now).0;
      CountersOk(after, retweets) && WellFormed(after)
  {
    var after: map<TweetId, Tweet> := Publish(tweets, author, content, media, visibility, replyTo, quoteOf, id, now).0;
    Published(tweets, author, content, media, visibility, replyTo, quoteOf, id, now);
    InsertKeepsCounters(tweets, retweets, after, id);
  }

  /** A collection that adds tweet `id`, with zero counters and links to
      existing tweets, to `tweets` whose other tweets differ only by the
      raised counters of its parent and quoted tweet, keeps the counters. */
  lemma InsertKeepsCounters(tweets: map<TweetId, Tweet>, retweets: map<RetweetId, Retweet>,
                            after: map<TweetId, Tweet>, id: TweetId)
    requires Unreferenced(tweets, retweets, id)
    requires CountersOk(tweets, retweets) && WellFormed(tweets)
    requires after.Keys == tweets.Keys + {id}
    requires var t := after[id];
      && t.repliesCount == 0 && t.retweetCount == 0
      && (t.isReply <==> t.replyTo.Some?) && (t.isQuote <==> t.quoteOf.Some?)
      && (t.replyTo.Some? ==> t.replyTo.value in tweets)
      && (t.quoteOf.Some? ==> t.quoteOf.value in tweets)
    requires forall k :: k in tweets ==>
      && SameButCounters(after[k], tweets[k])
      && after[k].repliesCount == tweets[k].repliesCount + (if after[id].replyTo == Some(k) then 1 else 0)
      && after[k].retweetCount == tweets[k].retweetCount + (if after[id].quoteOf == Some(k) then 1 else 0)
    ensures CountersOk(after, retweets) && WellFormed(after)
  {
    var raised: map<TweetId, Tweet> := after - {id};
    assert after == raised[id := after[id]];
    assert SameLinks(tweets, raised) by {
      forall k | k in tweets ensures LinksEqual(tweets[k], raised[k]) {
        assert SameButCounters(raised[k], tweets[k]);
      }
    }
    CountersAfterInsert(tweets, retweets, raised, id, after[id]);
  }

  /** The counters drift when a reply fails later on: with an existing
      parent and valid input, a 404 for the quoted tweet, a 500 for its id
      or for the visibility leaves the parent's `repliesCount` one above its
      replies. */
  lemma FailedReplyRaisesParent(tweets: map<TweetId, Tweet>, retweets: map<RetweetId, Retweet>, author: UserId,
                                req: TweetRequest, upload: nat -> string, id: TweetId, now: nat)
    requires id !in tweets && CountersOk(tweets, retweets)
    requires CheckTweetInput(req.content, req.files, upload).Pass?
    requires req.replyTo.Some? && req.replyTo.value.ObjectId? && req.replyTo.value.id in tweets
    requires CreateTweetStep(tweets, author, req, upload, id, now).1.Fail?
    ensures var after := CreateTweetStep(tweets, author, req, upload, id, now).0;
      var p := req.replyTo.value.id;
      after[p].repliesCount == |Replies(after, p)| + 1 && !CountersOk(after, retweets)
  {
    var after := CreateTweetStep(tweets, author, req, upload, id, now).0;
    var p := req.replyTo.value.id;
    var t1 := IncReplies(tweets, p, 1);
    var quoted := LinkTarget(t1, req.quoteOf);
    if quoted.Pass? && quoted.value.Some? {
      assert after == IncRetweets(t1, quoted.value.value, 1);
    } else {
      assert after == t1;
    }
    assert SameLinks(tweets, after) by {
      forall k | k in tweets ensures LinksEqual(tweets[k], after[k]) {
        assert SameButCounters(after[k], tweets[k]);
      }
    }
    SameLinksSameSets(tweets, after, p);
    assert CountsAt(tweets, retweets, p);
    assert !CountsAt(after, retweets, p);
  }

  /** `Publish`, step by step, on the store. */
  method StoreTweet(db: Db, author: UserId, content: string, media: seq<string>, visibility: Option<string>,
                    replyTo: Option<IdParam>, quoteOf: Option<IdParam>, id: TweetId, now: nat)
    returns (r: Result<TweetId>)
    requires id !in db.tweets
    modifies db`tweets
    ensures (db.tweets, r) == Publish(old(db.tweets), author, content, media, visibility, replyTo, quoteOf, id, now)
  {
    var parent: Option<TweetId> := None;
    if replyTo.Some? {
      if replyTo.value.Malformed? {
        return Fail(SERVER_ERROR);
      }
      var p := replyTo.value.id;
      if p !in db.tweets {
        return Fail(NOT_FOUND);
      }
      parent := Some(p);
      db.tweets := IncReplies(db.tweets, p, 1);
    }
    var quoted: Option<TweetId> := None;
    if quoteOf.Some? {
      if quoteOf.value.Malformed? {
        return Fail(SERVER_ERROR);
      }
      var q := quoteOf.value.id;
      if q !in db.tweets {
        return Fail(NOT_FOUND);
      }
      quoted := Some(q);
      db.tweets := IncRetweets(db.tweets, q, 1);
    }
    var vis := RequestedVisibility(visibility);
    if vis.None? {
      return Fail(SERVER_ERROR);
    }
    db.tweets := db.tweets[id := NewTweet(author, content, media, vis.value, parent, quoted, now)];
    return Ok(CREATED, id);
  }

  /** The handler: the checks, the upload loop, then the publication. */
  method CreateTweet(db: Db, author: UserId, req: TweetRequest, upload: nat -> string, id: TweetId, now: nat)
    returns (r: Result<TweetId>)
    requires id !in db.tweets
    modifies db`tweets
    ensures (db.tweets, r) == CreateTweetStep(old(db.tweets), author, req, upload, id, now)
  {
    if req.content.None? || AllSpace(req.content.value) || |req.content.value| > MAX_CONTENT {
      return Fail(BAD_REQUEST);
    }
    if |req.files| > MAX_TWEET_FILES {
      return Fail(BAD_REQUEST);
    }
    var uploaded := UploadFiles(req.files, TweetFileVerdict, upload);
    if uploaded.Stop? {
      return Fail(uploaded.status);
    }
    r := StoreTweet(db, author, Trim(req.content.value), Urls(uploaded.value), req.visibility, req.replyTo, req.quoteOf, id, now);
  }

  /** The media of an edit: `None` when no file is sent (the media stay),
      otherwise the checks and uploads of the new files. */
  function CheckNewMedia(files: seq<Upload>, upload: nat -> string): (r: Checked<Option<seq<string>>>)
    ensures r.Pass? <==>
      |files| <= MAX_TWEET_FILES && forall i :: 0 <= i < |files| ==> TweetFileVerdict(files[i]) != Reject && upload(i) != ""
    ensures r.Pass? ==> (r.value.None? <==> files == [])
    ensures r.Pass? && r.value.Some? ==> |r.value.value| == |files| && forall i :: 0 <= i < |files| ==> r.value.value[i] == upload(i)
    ensures r.Stop? ==> r.status in {BAD_REQUEST, SERVER_ERROR}
  {
    if files == [] then Pass(None)
    else if |files| > MAX_TWEET_FILES then Stop(BAD_REQUEST)
    else
      TweetFilesNeverSkipped();
      UploadAllOrNothing(files, TweetFileVerdict, upload);
      match UploadSpec(files, TweetFileVerdict, upload, 0)
      case Stop(s) => Stop(s)
      case Pass(ms) => Pass(Some(Urls(ms)))
  }

  /** The update document applied to tweet t: the trimmed content when
      given, the new media when files were sent, the visibility when given;
      `None` when `runValidators` refuses the visibility. Nothing else
      changes. */
  function Edit(t: Tweet, content: Option<string>, media: Option<seq<string>>, visibility: Option<string>)
    : (r: Option<Tweet>)
    ensures r.Some? <==> (visibility.Some? ==> ParseVisibility(visibility.value).Some?)
    ensures r.Some? ==>
      && r.value == t.(content := r.value.content, media := r.value.media, visibility := r.value.visibility)
      && r.value.content == (if content.Some? then Trim(content.value) else t.content)
      && r.value.media == (if media.Some? then media.value else t.media)
      && (visibility.Some? ==> VisibilityName(r.value.visibility) == visibility.value)
      && (visibility.None? ==> r.value.visibility == t.visibility)
  {
    var vis := if visibility.Some? then ParseVisibility(visibility.value) else Some(t.visibility);
    if vis.None? then None
    else Some(t.(content := if content.Some? then Trim(content.value) else t.content,
                 media := if media.Some? then media.value else t.media,
                 visibility := vis.value))
  }

  /** `updateTweet` by `user`: 400 for a malformed id, 404 for a missing
      tweet, 403 for someone else's, 400 for a reply or quote, 400 for
      over-long or blank content; then the new files, and 500 when the
      schema refuses the visibility. Only the edited tweet changes. */
  function UpdateTweetStep(tweets: map<TweetId, Tweet>, user: UserId, tweet: IdParam, content: Option<string>,
                           files: seq<Upload>, visibility: Option<string>, upload: nat -> string)
    : (r: (map<TweetId, Tweet>, nat))
    ensures r.0.Keys == tweets.Keys
    ensures r.1 in {OK, BAD_REQUEST, FORBIDDEN, NOT_FOUND, SERVER_ERROR}
    ensures r.1 != OK ==> r.0 == tweets
    ensures tweet.Malformed? ==> r.1 == BAD_REQUEST
    ensures tweet.ObjectId? && tweet.id !in tweets ==> r.1 == NOT_FOUND
    ensures tweet.ObjectId? && tweet.id in tweets && tweets[tweet.id].author != user ==> r.1 == FORBIDDEN
    ensures tweet.ObjectId? && tweet.id in tweets && tweets[tweet.id].author == user ==>
      (tweets[tweet.id].isReply || tweets[tweet.id].isQuote ==> r.1 == BAD_REQUEST)
    ensures r.1 == OK <==>
      && tweet.ObjectId? && tweet.id in tweets && tweets[tweet.id].author == user
      && !tweets[tweet.id].isReply && !tweets[tweet.id].isQuote
      && (content.Some? ==> ContentOk(content.value))
      && CheckNewMedia(files, upload).Pass?
      && (visibility.Some? ==> ParseVisibility(visibility.value).Some?)
    ensures r.1 == OK ==>
      && (forall k :: k in tweets && k != tweet.id ==> r.0[k] == tweets[k])
      && Edit(tweets[tweet.id], content, CheckNewMedia(files, upload).value, visibility) == Some(r.0[tweet.id])
  {
    match tweet
    case Malformed => (tweets, BAD_REQUEST)
    case ObjectId(id) =>
      if id !in tweets then (tweets, NOT_FOUND)
      else
        var t := tweets[id];
        if t.author != user then (tweets, FORBIDDEN)
        else if t.isReply || t.isQuote then (tweets, BAD_REQUEST)
        else if content.Some? && !ContentOk(content.value) then (tweets, BAD_REQUEST)
        else
          match CheckNewMedia(files, upload)
          case Stop(s) => (tweets, s)
          case Pass(media) =>
            match Edit(t, content, media, visibility)
            case None => (tweets, SERVER_ERROR)
            case Some(edited) => (tweets[id := edited], OK)
  }

  /** An edit touches no link and no counter, so it keeps the counters in
      agreement and the collection well formed; edited content stays within
      the schema's limits, and the media are replaced only when files are
      sent. */
  lemma UpdateKeepsCounters(tweets: map<TweetId, Tweet>, retweets: map<RetweetId, Retweet>, user: UserId, tweet: IdParam,
                            content: Option<string>, files: seq<Upload>, visibility: Option<string>, upload: nat -> string)
    requires CountersOk(tweets, retweets) && WellFormed(tweets)
    ensures var (after, status) := UpdateTweetStep(tweets, user, tweet, content, files, visibility, upload);
      && CountersOk(after, retweets) && WellFormed(after)
      && (status == OK && content.Some? ==> Conforms(after[tweet.id]))
      && (status == OK ==> (after[tweet.id].media == tweets[tweet.id].media <== files == []))
  {
    var (after, status) := UpdateTweetStep(tweets, user, tweet, content, files, visibility, upload);
    if status == OK {
      assert after == tweets[tweet.id := after[tweet.id]];
      CountersOkUnderEdit(tweets, retweets, tweet.id, after[tweet.id]);
      if content.Some? {
        TrimEmptyIff(content.value);
      }
    }
  }

  /** The handler. */
  method UpdateTweet(db: Db, user: UserId, tweet: IdParam, content: Option<string>, files: seq<Upload>,
                     visibility: Option<string>, upload: nat -> string) returns (status: nat)
    modifies db`tweets
    ensures (db.tweets, status) == UpdateTweetStep(old(db.tweets), user, tweet, content, files, visibility, upload)
  {
    if tweet.Malformed? {
      return BAD_REQUEST;
    }
    var id := tweet.id;
    if id !in db.tweets {
      return NOT_FOUND;
    }
    var t := db.tweets[id];
    if t.author != user {
      return FORBIDDEN;
    }
    if t.isReply || t.isQuote {
      return BAD_REQUEST;
    }
    if content.Some? && (|content.value| > MAX_CONTENT || AllSpace(content.value)) {
      return BAD_REQUEST;
    }
    var media := t.media;
    if files != [] {
      if |files| > MAX_TWEET_FILES {
        return BAD_REQUEST;
      }
      var uploaded := UploadFiles(files, TweetFileVerdict, upload);
      if uploaded.Stop? {
        return uploaded.status;
      }
      media := Urls(uploaded.value);
    }
    var vis := t.visibility;
    if visibility.Some? {
      var parsed := ParseVisibility(visibility.value);
      if parsed.None? {
        return SERVER_ERROR;
      }
      vis := parsed.value;
    }
    var newContent := if content.Some? then Trim(content.value) else t.content;
    db.tweets := db.tweets[id := t.(content := newContent, media := media, visibility := vis)];
    return OK;
  }

  /** The transaction of `deleteTweet` on the tweets: the parent's
      `repliesCount` and the quoted tweet's `retweetCount` drop by one when
      those tweets still exist, and the tweet is deleted. Its replies,
      quotes, likes, bookmarks and retweets stay. */
  function Unlink(tweets: map<TweetId, Tweet>, id: TweetId): (r: map<TweetId, Tweet>)
    requires id in tweets
    ensures r.Keys == tweets.Keys - {id}
    ensures forall k :: k in r ==>
      && SameButCounters(r[k], tweets[k])
      && r[k].repliesCount == tweets[k].repliesCount - (if tweets[id].isReply && tweets[id].replyTo == Some(k) then 1 else 0)
      && r[k].retweetCount == tweets[k].retweetCount - (if tweets[id].isQuote && tweets[id].quoteOf == Some(k) then 1 else 0)
  {
    Uncounted(tweets, tweets[id]) - {id}
  }

  /** The two `$inc: -1` updates of `deleteTweet` for tweet t: its parent
      loses a reply and the tweet it quotes a repost. */
  function Uncounted(tweets: map<TweetId, Tweet>, t: Tweet): (r: map<TweetId, Tweet>)
    ensures r.Keys == tweets.Keys
    ensures forall k :: k in r ==>
      && SameButCounters(r[k], tweets[k])
      && r[k].repliesCount == tweets[k].repliesCount - (if t.isReply && t.replyTo == Some(k) then 1 else 0)
      && r[k].retweetCount == tweets[k].retweetCount - (if t.isQuote && t.quoteOf == Some(k) then 1 else 0)
  {
    var t1 := if t.isReply && t.replyTo.Some? && t.replyTo.value in tweets
              then IncReplies(tweets, t.replyTo.value, -1) else tweets;
    if t.isQuote && t.quoteOf.Some? && t.quoteOf.value in tweets
    then IncRetweets(t1, t.quoteOf.value, -1) else t1
  }

  /** `deleteTweet` by `user`: 400 for a malformed id, 404 when the tweet or
      its author is missing, 403 for someone else's tweet. Otherwise, in one
      transaction, the tweet is unlinked and deleted and the caller's
      `tweetsCount` drops by one. */
  function DeleteTweetStep(tweets: map<TweetId, Tweet>, users: map<UserId, Profile>, user: UserId, tweet: IdParam)
    : (r: (map<TweetId, Tweet>, map<UserId, Profile>, nat))
    ensures r.2 == BAD_REQUEST <==> tweet.Malformed?
    ensures r.2 == NOT_FOUND <==> tweet.ObjectId? && (tweet.id !in tweets || tweets[tweet.id].author !in users)
    ensures r.2 == FORBIDDEN <==>
      tweet.ObjectId? && tweet.id in tweets && tweets[tweet.id].author in users && tweets[tweet.id].author != user
    ensures r.2 in {OK, BAD_REQUEST, FORBIDDEN, NOT_FOUND}
    ensures r.2 != OK ==> r.0 == tweets && r.1 == users
    ensures r.2 == OK ==>
      && user in users && tweet.id in tweets && r.0.Keys == tweets.Keys - {tweet.id}
      && r.0 == Unlink(tweets, tweet.id)
      && r.1 == users[user := users[user].(tweetsCount := users[user].tweetsCount - 1)]
  {
    match tweet
    case Malformed => (tweets, users, BAD_REQUEST)
    case ObjectId(id) =>
      if id !in tweets || tweets[id].author !in users then (tweets, users, NOT_FOUND)
      else if tweets[id].author != user then (tweets, users, FORBIDDEN)
      else (Unlink(tweets, id), users[user := users[user].(tweetsCount := users[user].tweetsCount - 1)], OK)
  }

  /** Deleting keeps every remaining tweet's counters in agreement with the
      records and the collection well formed. */
  lemma DeleteKeepsCounters(tweets: map<TweetId, Tweet>, users: map<UserId, Profile>, retweets: map<RetweetId, Retweet>,
                            user: UserId, tweet: IdParam)
    requires CountersOk(tweets, retweets) && WellFormed(tweets)
    ensures CountersOk(DeleteTweetStep(tweets, users, user, tweet).0, retweets)
    ensures WellFormed(DeleteTweetStep(tweets, users, user, tweet).0)
  {
    var (after, _, status) := DeleteTweetStep(tweets, users, user, tweet);
    if status == OK {
      assert LinksOk(tweet.id, tweets[tweet.id]);
      assert SameLinks(tweets - {tweet.id}, after) by {
        forall k | k in after ensures LinksEqual(tweets[k], after[k]) {
          assert SameButCounters(after[k], tweets[k]);
        }
      }
      CountersAfterRemove(tweets, retweets, after, tweet.id);
    }
  }

  /** Deleting a tweet right after creating it gives back the tweets as they
      were, counters included, but leaves the author's `tweetsCount` one
      lower: creation never raised it. */
  lemma CreateThenDelete(tweets: map<TweetId, Tweet>, users: map<UserId, Profile>, author: UserId,
                         req: TweetRequest, upload: nat -> string, id: TweetId, now: nat)
    requires id !in tweets && author in users
    requires CreateTweetStep(tweets, author, req, upload, id, now).1.Ok?
    ensures var (after, users2, status) := DeleteTweetStep(CreateTweetStep(tweets, author, req, upload, id, now).0,
                                                           users, author, ObjectId(id));
      && status == OK && after == tweets
      && users2[author].tweetsCount == users[author].tweetsCount - 1
  {
    var urls := CheckTweetInput(req.content, req.files, upload).value;
    var content := Trim(req.content.value);
    Published(tweets, author, content, urls, req.visibility, req.replyTo, req.quoteOf, id, now);
    UnlinkUndoesRaise(tweets, Publish(tweets, author, content, urls, req.visibility, req.replyTo, req.quoteOf, id, now).0, id);
  }

  /** Unlinking a tweet that was added under a fresh id, with its parent
      and quoted tweet raised by one, gives back the collection before. */
  lemma UnlinkUndoesRaise(tweets: map<TweetId, Tweet>, created: map<TweetId, Tweet>, id: TweetId)
    requires id !in tweets && created.Keys == tweets.Keys + {id}
    requires created[id].isReply <==> created[id].replyTo.Some?
    requires created[id].isQuote <==> created[id].quoteOf.Some?
    requires forall k :: k in tweets ==>
      && SameButCounters(created[k], tweets[k])
      && created[k].repliesCount == tweets[k].repliesCount + (if created[id].replyTo == Some(k) then 1 else 0)
      && created[k].retweetCount == tweets[k].retweetCount + (if created[id].quoteOf == Some(k) then 1 else 0)
    ensures Unlink(created, id) == tweets
  {
    var after := Unlink(created, id);
    forall k | k in tweets ensures after[k] == tweets[k] {
      assert SameButCounters(created[k], tweets[k]);
      assert SameButCounters(after[k], created[k]);
      assert after[k].repliesCount == tweets[k].repliesCount;
      assert after[k].retweetCount == tweets[k].retweetCount;
    }
  }

  /** The handler; the transaction is one atomic step here. */
  method DeleteTweet(db: Db, user: UserId, tweet: IdParam) returns (status: nat)
    modifies db`tweets, db`users
    ensures (db.tweets, db.users, status) == DeleteTweetStep(old(db.tweets), old(db.users), user, tweet)
  {
    if tweet.Malformed? {
      return BAD_REQUEST;
    }
    var id := tweet.id;
    if id !in db.tweets || db.tweets[id].author !in db.users {
      return NOT_FOUND;
    }
    var t := db.tweets[id];
    if t.author != user {
      return FORBIDDEN;
    }
    if t.isReply && t.replyTo.Some? && t.replyTo.value in db.tweets {
      db.tweets := IncReplies(db.tweets, t.replyTo.value, -1);
    }
    if t.isQuote && t.quoteOf.Some? && t.quoteOf.value in db.tweets {
      db.tweets := IncRetweets(db.tweets, t.quoteOf.value, -1);
    }
    db.tweets := db.tweets - {id};
    db.users := db.users[user := db.users[user].(tweetsCount := db.users[user].tweetsCount - 1)];
    return OK;
  }

  /** `toggleTweetPin` by `user`: 400 for a malformed id, 404 for a missing
      tweet, 403 for someone else's; otherwise only `pinned` flips. */
  function TogglePinStep(tweets: map<TweetId, Tweet>, user: UserId, tweet: IdParam): (r: (map<TweetId, Tweet>, nat))
    ensures r.1 == BAD_REQUEST <==> tweet.Malformed?
    ensures r.1 == NOT_FOUND <==> tweet.ObjectId? && tweet.id !in tweets
    ensures r.1 == FORBIDDEN <==> tweet.ObjectId? && tweet.id in tweets && tweets[tweet.id].author != user
    ensures r.1 in {OK, BAD_REQUEST, FORBIDDEN, NOT_FOUND}
    ensures r.1 != OK ==> r.0 == tweets
    ensures r.1 == OK ==>
      && r.0.Keys == tweets.Keys
      && r.0[tweet.id] == tweets[tweet.id].(pinned := !tweets[tweet.id].pinned)
      && forall k :: k in tweets && k != tweet.id ==> r.0[k] == tweets[k]
  {
    match tweet
    case Malformed => (tweets, BAD_REQUEST)
    case ObjectId(id) =>
      if id !in tweets then (tweets, NOT_FOUND)
      else if tweets[id].author != user then (tweets, FORBIDDEN)
      else (tweets[id := tweets[id].(pinned := !tweets[id].pinned)], OK)
  }

  /** Pinning twice restores the tweet, and pinning keeps the counters. */
  lemma PinTwiceRestores(tweets: map<TweetId, Tweet>, retweets: map<RetweetId, Retweet>, user: UserId, tweet: IdParam)
    ensures TogglePinStep(TogglePinStep(tweets, user, tweet).0, user, tweet).0 == tweets
    ensures CountersOk(tweets, retweets) ==> CountersOk(TogglePinStep(tweets, user, tweet).0, retweets)
  {
    var (t1, s1) := TogglePinStep(tweets, user, tweet);
    if s1 == OK {
      var t2 := TogglePinStep(t1, user, tweet).0;
      assert t2[tweet.id] == tweets[tweet.id];
      assert t2 == tweets;
      if CountersOk(tweets, retweets) {
        CountersOkUnderEdit(tweets, retweets, tweet.id, t1[tweet.id]);
      }
    }
  }

  /** The handler. */
  method ToggleTweetPin(db: Db, user: UserId, tweet: IdParam) returns (status: nat)
    modifies db`tweets
    ensures (db.tweets, status) == TogglePinStep(old(db.tweets), user, tweet)
  {
    if tweet.Malformed? {
      return BAD_REQUEST;
    }
    var id := tweet.id;
    if id !in db.tweets {
      return NOT_FOUND;
    }
    if db.tweets[id].author != user {
      return FORBIDDEN;
    }
    db.tweets := db.tweets[id := db.tweets[id].(pinned := !db.tweets[id].pinned)];
    return OK;
  }
}
