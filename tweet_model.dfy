/** The Tweet document of backEnd/src/models/tweet.model.js. */
module TweetModel {
  import opened Wrappers

  type UserId = nat
  type TweetId = nat

  /** The `visibility` enum. */
  datatype Visibility = Public | Private | Protected

  function VisibilityName(v: Visibility): string {
    match v
    case Public => "public"
    case Private => "private"
    case Protected => "protected"
  }

  /** The enum check the schema applies to a `visibility` string. */
  function ParseVisibility(s: string): (r: Option<Visibility>)
    ensures r.Some? ==> VisibilityName(r.value) == s
  {
    if s == "public" then Some(Public)
    else if s == "private" then Some(Private)
    else if s == "protected" then Some(Protected)
    else None
  }

  /** Every enum value survives the round trip through its name, so the
      schema accepts exactly the three names. */
  lemma VisibilityRoundTrip(v: Visibility)
    ensures ParseVisibility(VisibilityName(v)) == Some(v)
  {
    match v
    case Public =>
    case Private =>
      assert "private" != "public";
    case Protected =>
      assert "protected" != "public" && "protected" != "private";
  }

  const MAX_CONTENT: nat := 280

  datatype Tweet = Tweet(
    author: UserId,
    content: string,
    media: seq<string>,
    replyTo: Option<TweetId>,
    isReply: bool,
    isQuote: bool,
    quoteOf: Option<TweetId>,
    likesCount: int,
    repliesCount: int,
    retweetCount: int,
    visibility: Visibility,
    pinned: bool,
    createdAt: nat)

  /** The schema's own constraints: `content` is required (so not empty) and at
      most 280 characters. */
  predicate Conforms(t: Tweet) {
    0 < |t.content| <= MAX_CONTENT
  }

  /** `Tweet.create` with only the fields a handler sets; every other field
      takes its schema default. */
  function NewTweet(author: UserId, content: string, media: seq<string>, visibility: Visibility,
                    replyTo: Option<TweetId>, quoteOf: Option<TweetId>, createdAt: nat): (t: Tweet)
    ensures t.likesCount == 0 && t.repliesCount == 0 && t.retweetCount == 0
    ensures !t.pinned
    ensures t.isReply <==> replyTo.Some?
    ensures t.isQuote <==> quoteOf.Some?
    ensures t.author == author && t.content == content && t.media == media
    ensures t.visibility == visibility && t.replyTo == replyTo && t.quoteOf == quoteOf
  {
    Tweet(author, content, media, replyTo, replyTo.Some?, quoteOf.Some?, quoteOf,
          0, 0, 0, visibility, false, createdAt)
  }

  /** The default visibility when a request names none. */
  function VisibilityOrDefault(v: Option<Visibility>): (r: Visibility)
    ensures v.None? ==> r == Public
    ensures v.Some? ==> r == v.value
  {
    if v.Some? then v.value else Public
  }
}
