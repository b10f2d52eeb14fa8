# X clone backend, modelled in Dafny

This project models the request handlers of an X/Twitter-style REST backend
(Express and MongoDB) and proves properties of them. The MongoDB collections
are maps and sets, held as fields of one `Db` object (`store.dfy`). Each
handler that changes documents is a method on that store. It is proved equal
to a pure step function (`XStep(old state, request) == (new state, status)`),
and the step functions carry the contracts: status codes with their exact
conditions, what changes and what stays, and the invariants the handlers
keep.

The main invariants are these:

- Cached counters agree with the records they count: `likesCount`,
  `followersCount`/`followingCount`, `repliesCount`/`retweetCount`,
  `membersCount`, and the length of an AI chat thread's list.
- Unique indexes hold at most one record per (user, tweet) or
  (community, user) pair.
- The two AI chat collections stay linked to each other.

Account security is a `class Account` whose fields the handlers update in
place. Covered: the login lockout, the one-time-code resend throttle and the
verification.

The reads are pure functions over sequences:

- quote redaction and the private-tweet rules;
- the timeline filter;
- page arithmetic;
- the community feed merge;
- conversation grouping.

The utilities are modelled in their source's form: the slug, `getPublicId`,
one-time codes and default user names.

Passwords, one-time codes, uploads, e-mail, tokens, the clock, random
numbers and the AI service are parameters of the handlers.
Fresh ObjectIds are parameters too, with a precondition that no document
uses them.

Modules, one per file:

- `Wrappers`, `Store` and `Collections`: shared types and list operations.
- `Text`: JavaScript string built-ins.
- `Paging`: page arithmetic.
- `TweetModel`, `TweetCounters` and `Views`: the Tweet document, its
  counters and its listing shape.
- `TweetReads` and `TweetWrites`: the tweet handlers.
- `Media`: file rules, quality and the upload loop.
- `Likes`, `Bookmarks`, `Follows` and `Retweets`: the toggles.
- `Slugs`, `Communities`, `Memberships` and `CommunityPosts`: communities.
- `Messages`: direct messages.
- `GrockThreads` and `GrockChat`: the AI chat.
- `Accounts`, `Otp`, `UserNames` and `PublicId`: accounts and utilities.

## Model

| member | source | states |
|---|---|---|
| Otp.DigitsAreDigits | backEnd/src/utils/OTPGenrate.js:2 | every character of the alphabet `digits` is a decimal digit |
| Otp.GenerateOtp | backEnd/src/utils/OTPGenrate.js:1-8 | the code has exactly `length` characters (none when `length` is not positive), character i is the digit drawn on round i and so a decimal digit, and `expire` is `now` plus ten minutes in milliseconds |
| PublicId.LastSegment | backEnd/src/utils/cloudinary.js:27-28 | the last '/'-separated part holds no '/' |
| PublicId.GetPublicId | backEnd/src/utils/cloudinary.js:25-31 | null exactly for a missing or empty url; otherwise a string with neither '/' nor '.' |
| PublicId.PublicIdPosition | backEnd/src/utils/cloudinary.js:27-30 | the last segment is the suffix of the url after its last '/' (or the whole url), and the public id is its prefix up to the first '.' or to its end |
| PublicId.PlainNameUnchanged | backEnd/src/utils/cloudinary.js:27-30 | a url with no '/' and no '.' is returned unchanged |
| PublicId.FirstDotCounts | backEnd/src/utils/cloudinary.js:29 | only the first '.' counts: "x/a.b.c" gives "a" |
| UserNames.BaseName | backEnd/src/utils/genrateUserName.js:5-7 | with a non-empty full name the base has no white space and no upper-case letter; otherwise it is the lower-cased part of the e-mail before its first '@' and holds no '@' |
| UserNames.BaseNameOfFullName | backEnd/src/utils/genrateUserName.js:5-6 | a non-empty full name gives exactly its non-white-space characters, in order, lower-cased: each of them is in the base, and the base of a name split in two parts is the first part's followed by the second's |
| UserNames.Candidate | backEnd/src/utils/genrateUserName.js:15-21 | every candidate starts with the base, and every candidate after round 0 is strictly longer than the base |
| UserNames.GenerateUserNames | backEnd/src/utils/genrateUserName.js:3-33 | at most two names, distinct, none taken, each starting with the base; the base comes first exactly when it is free; fewer than two only when every candidate tried was taken or already chosen |
| UserNames.CheckAvailable | backEnd/src/utils/genrateUserName.js:35-42 | echoes the name, and `available` holds exactly when no user has that name |
| TweetModel.ParseVisibility | backEnd/src/models/tweet.model.js:16 | an accepted visibility string is the name of the value it parses to |
| TweetModel.VisibilityRoundTrip | backEnd/src/models/tweet.model.js:16 | each of the three enum values parses back from its name, so the enum accepts exactly 'public', 'private' and 'protected' |
| TweetModel.NewTweet | backEnd/src/models/tweet.model.js:5-18 | a created tweet has zero like, reply and retweet counters, is not pinned, has `isReply`/`isQuote` exactly when it has a parent/quoted tweet, and holds the given author, content, media, visibility and links |
| TweetModel.VisibilityOrDefault | backEnd/src/models/tweet.model.js:16 | a missing visibility defaults to public; a given one is kept |
| Likes.Likers | backEnd/src/controllers/like.controller.js:17 | a user is a liker of t exactly when the pair (user, t) is a like record |
| Likes.IncLikes | backEnd/src/controllers/like.controller.js:23-34 | `$inc` of `likesCount` adds exactly `d` to that tweet's counter, touches no other tweet and creates none |
| Likes.LikeStep | backEnd/src/controllers/like.controller.js:8-39 | 400 with no change exactly for a malformed id; otherwise the caller's like is toggled and no other like record changes, 404 exactly when the tweet is missing (after the toggle), 200 for an unlike and 201 for a like; only that tweet's `likesCount` moves, down by one for an unlike and up by one for a like |
| Likes.LikersAfterToggle | backEnd/src/controllers/like.controller.js:19-30 | inserting or deleting one like record changes the likers of that tweet only, by that user only |
| Likes.LikeStepKeepsCounts | backEnd/src/controllers/like.controller.js:17-38 | every request keeps each existing tweet's `likesCount` equal to its number of like records |
| Likes.LikeTwiceRestores | backEnd/src/controllers/like.controller.js:17-38 | two identical requests restore the like records and every tweet; the statuses are 201 and 200 in some order, or 404 twice for a missing tweet |
| Likes.ToggleLike | backEnd/src/controllers/like.controller.js:8-39 | the handler's new like records, tweets and status are those of `LikeStep` |
| Bookmarks.BookmarkStep | backEnd/src/controllers/bookmark.controller.js:9-43 | 400 with no change exactly for a malformed id; otherwise the caller's bookmark is toggled, no other bookmark changes, 200 for a removal and 201 for an insertion; the tweet is not looked up |
| Bookmarks.BookmarkTwiceRestores | backEnd/src/controllers/bookmark.controller.js:9-43 | two identical requests restore the bookmark records, with statuses 201 and 200 in some order |
| Bookmarks.ToggleBookmark | backEnd/src/controllers/bookmark.controller.js:9-43 | the handler changes only the bookmark records, as `BookmarkStep` says, so no counter anywhere moves |
| Bookmarks.UserBookmarks | backEnd/src/controllers/bookmark.controller.js:45-197 | one entry per tweet the caller bookmarked and no other; a shown tweet is the stored one, listed as every other listing shows it: its quote is present exactly when the quoted tweet and its author exist and it is not a private tweet of someone else |
| Bookmarks.BookmarksArePrivate | backEnd/src/controllers/bookmark.controller.js:49 | another user's toggle never changes the caller's listing |
| Follows.Followers | backEnd/src/controllers/follow.controller.js:84-88 | v follows u exactly when (v, u) is an edge |
| Follows.Following | backEnd/src/controllers/follow.controller.js:131-135 | u follows v exactly when (u, v) is an edge |
| Follows.IncFollow | backEnd/src/controllers/follow.controller.js:34-70 | the two `$inc` updates move the target's `followersCount` and the follower's `followingCount` by d, skip a missing user, and change no other user |
| Follows.FollowStep | backEnd/src/controllers/follow.controller.js:9-75 | the status is one of 200, 201, 400 and 404 |
| Follows.FollowStepMeaning | backEnd/src/controllers/follow.controller.js:12-74 | 400 with no change exactly for a malformed id or a self-follow; otherwise the edge is toggled and no other edge changes, 404 exactly when either user is missing, 200 for an unfollow and 201 for a follow; only the two users' counters move |
| Follows.DegreesAfterToggle | backEnd/src/controllers/follow.controller.js:25-49 | inserting or deleting edge (a, b) changes b's followers by a and a's followings by b, and no other user's |
| Follows.CountsAfterToggle | backEnd/src/controllers/follow.controller.js:24-74 | toggling an edge together with the two `$inc` updates keeps both counters equal to in- and out-degree |
| Follows.CountAfterToggleAt | backEnd/src/controllers/follow.controller.js:24-74 | the same, for one user at a time |
| Follows.NotesAfterToggle | backEnd/src/controllers/follow.controller.js:29-60 | deleting or creating the 'follow' notification with the edge keeps exactly one notification per edge |
| Follows.FollowStepKeepsInvariants | backEnd/src/controllers/follow.controller.js:9-75 | every request keeps both counters equal to the degrees and one notification per edge |
| Follows.FollowTwiceRestores | backEnd/src/controllers/follow.controller.js:19-74 | two identical requests restore the edges, the notifications and every counter; with both users present the statuses are 201 and 200 in some order |
| Follows.ToggledTwice | backEnd/src/controllers/follow.controller.js:24-74 | toggling an edge, its notification and the counters twice gives back the graph |
| Follows.IncFollowUndo | backEnd/src/controllers/follow.controller.js:34-70 | raising and lowering the two counters by the same amount gives back the users |
| Follows.ToggleFollow | backEnd/src/controllers/follow.controller.js:9-75 | the handler's new edges, notifications, users and status are those of `FollowStep` |
| Follows.GetFollowers | backEnd/src/controllers/follow.controller.js:77-122 | 400 exactly for a malformed id; otherwise the existing users with an edge to the target, and only those |
| Follows.GetFollowing | backEnd/src/controllers/follow.controller.js:124-170 | 400 exactly for a malformed id; otherwise the existing users the target has an edge to, and only those |
| Follows.FollowListsAgree | backEnd/src/controllers/follow.controller.js:84-135 | v is among u's followings exactly when u is among v's followers |
| TweetCounters.SameLinksSameSets | backEnd/src/models/tweet.model.js:9-15 | two collections with the same links have the same replies and quotes of every tweet |
| TweetCounters.IncReplies | backEnd/src/controllers/tweet.controller.js:135 | `$inc` of `repliesCount` moves that counter of that tweet by d, skips a missing tweet, and changes nothing else |
| TweetCounters.IncRetweets | backEnd/src/controllers/tweet.controller.js:146 | `$inc` of `retweetCount` moves that counter of that tweet by d, skips a missing tweet, and changes nothing else |
| TweetCounters.RepliesAfterInsert | backEnd/src/controllers/tweet.controller.js:132-149 | a tweet stored under a fresh id adds one reply to its parent and to no other tweet |
| TweetCounters.QuotesAfterInsert | backEnd/src/controllers/tweet.controller.js:143-149 | a tweet stored under a fresh id adds one quote to the tweet it quotes and to no other |
| TweetCounters.LinksAfterRemove | backEnd/src/controllers/tweet.controller.js:1341-1357 | deleting a tweet takes one reply from its parent and one quote from its quoted tweet, and nothing from any other |
| TweetCounters.CountersOkUnderEdit | backEnd/src/controllers/tweet.controller.js:936-1215 | changing a tweet's fields other than its links and counters keeps every counter in agreement |
| TweetCounters.EditCountAt | backEnd/src/controllers/tweet.controller.js:936-1215 | the same at one tweet |
| TweetCounters.InsertCountAt | backEnd/src/controllers/tweet.controller.js:127-149 | storing a new tweet keeps the agreement at an old tweet whose counters moved by exactly the new links to it |
| TweetCounters.FreshCountAt | backEnd/src/controllers/tweet.controller.js:149 | a new tweet under a fresh id starts in agreement: nothing replies to it, quotes it or reposts it |
| TweetCounters.CountersAfterInsert | backEnd/src/controllers/tweet.controller.js:127-149 | storing a new tweet with zero counters, with its parent's and quoted tweet's counters raised by one, keeps every counter in agreement and the links well formed |
| TweetCounters.RemoveCountAt | backEnd/src/controllers/tweet.controller.js:1341-1357 | deleting a tweet keeps the agreement at a remaining tweet whose counters moved by exactly the deleted links to it |
| TweetCounters.CountersAfterRemove | backEnd/src/controllers/tweet.controller.js:1341-1357 | deleting a tweet with its parent's and quoted tweet's counters lowered by one keeps every counter in agreement and the links well formed |
| Views.QuoteOf | backEnd/src/controllers/tweet.controller.js:550-595 | the quote lookup yields the stored quoted tweet exactly when it and its author exist |
| Views.Redact | backEnd/src/controllers/tweet.controller.js:624-640 | a quoted tweet is kept exactly when it is not private or its author is an insider; otherwise null |
| Views.ViewOf | backEnd/src/controllers/tweet.controller.js:596-640 | a listed tweet carries its id and stored document, `isLiked` and `isRetweeted` are always false, and the quote is present exactly when it exists, its author exists and it is shown to the insiders |
| Views.ViewAll | backEnd/src/controllers/tweet.controller.js:550-660 | one view per document in the page's order, and no shown quote is hidden from the insiders |
| Views.NoPrivateQuoteLeaks | backEnd/src/controllers/tweet.controller.js:624-640 | no listed quote is a private tweet of someone outside the insiders |
| Views.NewestFirstIsPreorder | backEnd/src/controllers/tweet.controller.js:521 | `createdAt` descending is a total preorder |
| Views.Newest | backEnd/src/controllers/tweet.controller.js:515-522 | the matching tweets newest first: sorted, each matching stored tweet exactly once, as many as match |
| Views.PageRecords | backEnd/src/controllers/tweet.controller.js:513-549 | one page holds at most `limit` matching stored tweets with existing authors, newest first: exactly the page's slice of the newest-first matches, less the tweets of deleted authors |
| Views.ViewAllListed | backEnd/src/controllers/tweet.controller.js:550-660 | viewing a sorted page keeps its order and the documents' properties |
| Views.ListPage | backEnd/src/controllers/tweet.controller.js:513-660 | a page as returned: at most `limit` views, newest first, each of a matching stored tweet with its quote redacted for the insiders; exactly the views of the page's documents, in order |
| Views.EveryTweetOnAPage | backEnd/src/controllers/tweet.controller.js:513-549 | every matching tweet whose author exists is among the documents of some page |
| Views.EveryTweetListed | backEnd/src/controllers/tweet.controller.js:513-660 | every matching tweet whose author exists is listed on some page, with its quote looked up and redacted for the insiders |
| Paging.CeilDiv | backEnd/src/controllers/tweet.controller.js:672 | `Math.ceil(n / d)`: the least r with r * d at least n |
| Paging.Skip | backEnd/src/controllers/reTweet.controller.js:221 | the first page skips nothing |
| Paging.CountPageInfo | backEnd/src/controllers/tweet.controller.js:669-676 | `totalPages` is the ceiling of total over limit, and `hasPrevPage` holds exactly when page > 1 |
| Paging.PagesPageInfo | backEnd/src/controllers/reTweet.controller.js:283-294 | `totalPages` is the ceiling of total over limit, and `hasPrev` holds exactly when page > 1 |
| Paging.PageInfoStylesAgree | backEnd/src/controllers/reTweet.controller.js:292 | `page * limit < total` and `page < totalPages` give the same `hasNext` |
| Paging.PageSlice | backEnd/src/controllers/tweet.controller.js:523-528 | `$skip` then `$limit`: at most `limit` elements, element i is element skip + i of the input, and a short page reaches the end |
| Paging.HasNextIffMoreRemain | backEnd/src/controllers/tweet.controller.js:674 | `hasNextPage` holds exactly when documents remain after the ones this page returns |
| Paging.PagesTile | backEnd/src/controllers/reTweet.controller.js:221 | a full page ends where the next one starts, so pages neither overlap nor leave gaps |
| Paging.PageOf | backEnd/src/controllers/reTweet.controller.js:221 | every position lies within the window of some page |
| Paging.EveryElementOnItsPage | backEnd/src/controllers/reTweet.controller.js:221 | every element of a listing is returned by the page that holds its position |
| Paging.OnSomePage | backEnd/src/controllers/reTweet.controller.js:221 | every element of a listing is on some page |
| Paging.PageSliceSorted | backEnd/src/controllers/tweet.controller.js:521-528 | a page of a sorted listing is sorted and holds only elements of the listing |
| Paging.PageSliceAll | backEnd/src/controllers/tweet.controller.js:523-528 | what holds of every element of a listing holds of every element of its pages |
| TweetReads.GetTweetById | backEnd/src/controllers/tweet.controller.js:302-497 | 400 exactly for a malformed id, 404 when the tweet or its author is missing, 403 exactly for someone else's private tweet; otherwise the stored tweet, with a quote only when it is shown to the caller |
| TweetReads.PrivateTweetOnlyForAuthor | backEnd/src/controllers/tweet.controller.js:484-486 | a private tweet is returned exactly to its author |
| TweetReads.GetUserTweets | backEnd/src/controllers/tweet.controller.js:498-679 | 400 exactly for a malformed id; otherwise at most `limit` of the user's non-reply tweets, newest first, with quotes redacted for the caller and the page numbers of their count; the items are that page of the user's listing |
| TweetReads.EveryUserTweetListed | backEnd/src/controllers/tweet.controller.js:513-549 | every non-reply tweet of an existing user is listed on some page of that user's tweets |
| TweetReads.TimelineAuthors | backEnd/src/controllers/tweet.controller.js:690-696 | the caller and exactly the users the caller follows |
| TweetReads.GetTimeline | backEnd/src/controllers/tweet.controller.js:680-935 | the corrected timeline, with the count query's second `$match` in the listing too: at most `limit` stored non-reply tweets with existing authors, newest first, each public or by the caller or a followee, quotes redacted; the items are that page of the timeline match; the total is the count query |
| TweetReads.TimelineSecondStageRedundant | backEnd/src/controllers/tweet.controller.js:902-916 | the second filter keeps every tweet the first match keeps, so the total counts exactly the first match |
| TweetReads.TimelineExcludesStrangers | backEnd/src/controllers/tweet.controller.js:698-711 | a private or protected tweet of someone the caller neither is nor follows never appears on the timeline |
| TweetReads.EveryTimelineTweetListed | backEnd/src/controllers/tweet.controller.js:888-932 | the corrected timeline misses nothing: every non-reply tweet with an existing author that is public, the caller's or a followee's is listed on some page |
| TweetReads.ListingStageRefused | backEnd/src/controllers/tweet.controller.js:847-864 | the listing aggregate's second `$match` does not parse: its private branch holds a bare `$in` with no field and no `$expr` |
| TweetReads.CountStageParses | backEnd/src/controllers/tweet.controller.js:902-916 | the count aggregate's second `$match` parses |
| TweetReads.CountStageMeansVisible | backEnd/src/controllers/tweet.controller.js:902-916 | the count's second `$match` keeps exactly the public and protected tweets and the private ones of the caller's authors |
| TweetReads.TimelineWithStage | backEnd/src/controllers/tweet.controller.js:698-932 | 500 exactly when MongoDB refuses the listing's second `$match`; otherwise 200 with the count's page information and exactly the page's tweets the stage keeps |
| TweetReads.TimelineAsWrittenFails | backEnd/src/controllers/tweet.controller.js:847-864 | as written, `getTimeline` answers 500 on every call, whatever is stored |
| TweetReads.TimelineWithCountStage | backEnd/src/controllers/tweet.controller.js:902-916 | with the count's rule in the listing's stage, applied to the looked-up author's id, the answer is a 200 carrying exactly `GetTimeline` |
| TweetReads.GetTweetReplies | backEnd/src/controllers/tweet.controller.js:1374-1620 | 400 exactly for a malformed id, 404 for a missing parent or parent author, 403 exactly for someone else's private parent; otherwise at most `limit` direct replies, newest first, quotes redacted for the caller, with the page numbers of their count; the items are that page of the replies |
| TweetReads.EveryReplyListed | backEnd/src/controllers/tweet.controller.js:1374-1620 | every reply with an existing author to a parent the caller may see is listed on some page |
| TweetWrites.CheckTweetInput | backEnd/src/controllers/tweet.controller.js:25-118 | the input passes exactly when content is present, non-blank and at most 280 characters, there are at most four files, each file is accepted and its upload yields a URL; then the URLs come in file order; failures are 400 or, for a failed upload, 500 |
| TweetWrites.LinkTarget | backEnd/src/controllers/tweet.controller.js:127-142 | a `replyTo`/`quoteOf` lookup passes exactly when the link is absent or names a stored tweet; an unparsable id is a 500 and a missing tweet a 404 |
| TweetWrites.RequestedVisibility | backEnd/src/controllers/tweet.controller.js:22 | an absent visibility defaults to public, and an accepted one has the requested name |
| TweetWrites.Publish | backEnd/src/controllers/tweet.controller.js:127-149 | the publication succeeds exactly when both links resolve and the visibility is in the enum; it adds exactly the new id, and a failure adds nothing |
| TweetWrites.RaiseReplies | backEnd/src/controllers/tweet.controller.js:135 | the parent's `repliesCount` rises by one and nothing else changes |
| TweetWrites.RaiseReposts | backEnd/src/controllers/tweet.controller.js:146 | the quoted tweet's `retweetCount` rises by one and nothing else changes |
| TweetWrites.Published | backEnd/src/controllers/tweet.controller.js:120-149 | the stored tweet has the author, content, media, visibility and links asked for, `isReply`/`isQuote` exactly when linked, zero counters, unpinned; the parent and the quoted tweet gain one and nothing else changes |
| TweetWrites.RaisedBoth | backEnd/src/controllers/tweet.controller.js:135-146 | both raises together move only those two counters, each by one |
| TweetWrites.CreateTweetStep | backEnd/src/controllers/tweet.controller.js:21-149 | creation succeeds exactly when the input passes, both links resolve and the visibility is accepted, with 201 and the new id; a 400 changes nothing, and no failure adds a tweet |
| TweetWrites.CreatedTweet | backEnd/src/controllers/tweet.controller.js:122-123 | a created tweet holds the trimmed content, within the schema's limits, and the uploaded URLs in file order |
| TweetWrites.CreateKeepsCounters | backEnd/src/controllers/tweet.controller.js:127-149 | a successful creation keeps every `repliesCount` and `retweetCount` in agreement with the stored replies, quotes and reposts |
| TweetWrites.PublishKeepsCounters | backEnd/src/controllers/tweet.controller.js:127-149 | the same for the publication step |
| TweetWrites.InsertKeepsCounters | backEnd/src/controllers/tweet.controller.js:132-149 | adding a zero-counter tweet whose parent and quoted tweet were raised by one keeps the counters in agreement |
| TweetWrites.FailedReplyRaisesParent | backEnd/src/controllers/tweet.controller.js:127-149 | a reply that fails after its parent was found leaves the parent's `repliesCount` one above its replies: the raise is not undone |
| TweetWrites.StoreTweet | backEnd/src/controllers/tweet.controller.js:127-149 | the store-changing publication yields exactly the tweets and status of `Publish` |
| TweetWrites.CreateTweet | backEnd/src/controllers/tweet.controller.js:21-149 | the handler yields exactly the tweets and status of `CreateTweetStep` |
| TweetWrites.CheckNewMedia | backEnd/src/controllers/tweet.controller.js:989-1069 | with no files the media stay; otherwise the new files are checked and their URLs replace the media in order; failures are 400 or 500 |
| TweetWrites.Edit | backEnd/src/controllers/tweet.controller.js:1071-1080 | the edit changes only content (trimmed), media and visibility, each only when given, and is refused exactly when the visibility is outside the enum |
| TweetWrites.UpdateTweetStep | backEnd/src/controllers/tweet.controller.js:936-1084 | 400 for a malformed id, 404 for a missing tweet, 403 for someone else's; success exactly when the author edits a plain tweet with valid content, files and visibility; only that tweet changes, as `Edit` says; a failure changes nothing |
| TweetWrites.UpdateKeepsCounters | backEnd/src/controllers/tweet.controller.js:1071-1080 | an edit keeps every counter in agreement, edited content conforms to the schema, and the media stay when no file is sent |
| TweetWrites.UpdateTweet | backEnd/src/controllers/tweet.controller.js:936-1084 | the handler yields exactly the tweets and status of `UpdateTweetStep` |
| TweetWrites.Unlink | backEnd/src/controllers/tweet.controller.js:1341-1357 | the tweet is gone, its parent has one reply fewer and its quoted tweet one repost fewer, and nothing else changes |
| TweetWrites.Uncounted | backEnd/src/controllers/tweet.controller.js:1341-1355 | the two `$inc: -1` updates move only the parent's and the quoted tweet's counters, each by one |
| TweetWrites.DeleteTweetStep | backEnd/src/controllers/tweet.controller.js:1216-1367 | 400 exactly for a malformed id, 404 exactly for a missing tweet or author, 403 exactly for someone else's tweet; on success the tweet is unlinked and the caller's `tweetsCount` drops by one; a failure changes nothing |
| TweetWrites.DeleteKeepsCounters | backEnd/src/controllers/tweet.controller.js:1337-1367 | deletion keeps every remaining counter in agreement and the collection well formed |
| TweetWrites.CreateThenDelete | backEnd/src/controllers/tweet.controller.js:149 | deleting a just-created tweet restores the tweets, counters included, but leaves the author's `tweetsCount` one lower, since creation never raised it |
| TweetWrites.UnlinkUndoesRaise | backEnd/src/controllers/tweet.controller.js:135 | unlinking a freshly added tweet undoes the raises of its parent and quoted tweet |
| TweetWrites.DeleteTweet | backEnd/src/controllers/tweet.controller.js:1216-1367 | the handler yields exactly the tweets, users and status of `DeleteTweetStep` |
| TweetWrites.TogglePinStep | backEnd/src/controllers/tweet.controller.js:1621-1647 | 400, 404 and 403 exactly in their cases; otherwise only that tweet's `pinned` flips |
| TweetWrites.PinTwiceRestores | backEnd/src/controllers/tweet.controller.js:1646 | toggling twice restores the tweets, and pinning keeps the counters |
| TweetWrites.ToggleTweetPin | backEnd/src/controllers/tweet.controller.js:1621-1647 | the handler yields exactly the tweets and status of `TogglePinStep` |
| Media.ImageQuality | backEnd/src/controllers/tweet.controller.js:15-19 | the JPEG quality is 85, 75 or 65, and 85 exactly when the file is at most half the target size |
| Media.ImageQualityNonIncreasing | backEnd/src/controllers/message.controller.js:15-19 | a larger file never gets a higher quality |
| Media.ProfileImageQuality | backEnd/src/controllers/user.controller.js:248-251 | the profile quality lies in [10, 90], is 90 for a zero or small enough original and 10 for a large one |
| Media.ProfileImageQualityNonIncreasing | backEnd/src/controllers/user.controller.js:248-251 | the profile quality only falls as the original grows |
| Media.TweetFileVerdict | backEnd/src/controllers/tweet.controller.js:57-112 | an accepted tweet file has content, an allow-listed type and is within the limit of its class |
| Media.TweetFileNeverSkipped | backEnd/src/controllers/tweet.controller.js:43-112 | every allow-listed type lands in one branch, so no tweet file is silently dropped; a file is rejected exactly when it lacks content, is not allow-listed or is over its limit |
| Media.MessageFileVerdict | backEnd/src/controllers/message.controller.js:80-147 | no message file is silently skipped: each is accepted or rejected |
| Media.MessageGifAccepted | backEnd/src/controllers/message.controller.js:106-118 | a message file whose type mentions "gif" is accepted exactly when it has content and is within the GIF limit, whatever the rest of its type says |
| Media.MessageFileAccepted | backEnd/src/controllers/message.controller.js:87-147 | any other message file is accepted exactly when it has content, is a listed image, video or document, and is within the limit of its class |
| Media.TypeListsDisjoint | backEnd/src/controllers/message.controller.js:55-68 | no mimetype is on two allow-lists and none is empty |
| Media.Urls | backEnd/src/controllers/message.controller.js:149-155 | one URL per uploaded entry, in order |
| Media.UploadSpec | backEnd/src/controllers/message.controller.js:77-156 | the upload loop stops only with 400 or 500 |
| Media.UploadSucceedsIff | backEnd/src/controllers/message.controller.js:77-156 | the loop succeeds exactly when every file passes its rule and its upload returns a URL; a 400 means some file was rejected |
| Media.UploadKeepsOrder | backEnd/src/controllers/message.controller.js:149-155 | a successful loop keeps one entry per file, in file order, with that file's URL, type and name |
| Media.UploadAllOrNothing | backEnd/src/controllers/tweet.controller.js:53-118 | with a rule that never skips, the loop succeeds exactly when every file is accepted and uploaded, and the URLs come in file order |
| Media.TweetFilesNeverSkipped | backEnd/src/controllers/tweet.controller.js:114-116 | no tweet file is ever left without a URL by the branch rules |
| Media.UploadFiles | backEnd/src/controllers/tweet.controller.js:53-118 | the loop method returns exactly what `UploadSpec` describes |
| Accounts.ClearExpiredLock | backEnd/src/controllers/user.controller.js:331-340 | a lock whose end is not in the future is lifted before the password is compared; no lock, nothing changes |
| Accounts.LoginStepKeepsLock | backEnd/src/controllers/user.controller.js:331-367 | every attempt keeps `loginAttempts` within MAX_LOGIN_ATTEMPTS; a wrong password adds one attempt and reports how many remain (at least one), or locks for LOCK_TIME; a login matches exactly when the password matches and no lock is in force |
| Accounts.LockedAccountRefuses | backEnd/src/controllers/user.controller.js:331-336 | while a lock lasts every attempt is refused with the remaining whole minutes (at least one) and changes nothing |
| Accounts.WrongPasswordsLock | backEnd/src/controllers/user.controller.js:346-356 | an unlocked account with k failed attempts is locked by the next MAX_LOGIN_ATTEMPTS - k wrong passwords, until LOCK_TIME after the last |
| Accounts.ResendStepBounds | backEnd/src/controllers/user.controller.js:83-120 | the resend throttle keeps `otpRequests` within MAX_OTP_REQUESTS: a resend adds one request (after an expired block, from zero), a full counter starts a block, a block in force changes nothing |
| Accounts.VerifyStep | backEnd/src/controllers/user.controller.js:137-153 | a refused code is a 400, and an accepted one clears the code, its expiry and the request counter |
| Accounts.ResentCodeVerifies | backEnd/src/controllers/user.controller.js:100-153 | a just-resent code is accepted for ten minutes and refused after that even when it matches |
| Accounts.Account.constructor | backEnd/src/controllers/user.controller.js:35-49 | a new account is unverified, with no password, user name, lock or login, and empty profile fields |
| Accounts.RegisterUser | backEnd/src/controllers/user.controller.js:16-70 | 400 for missing fields, 409 for an e-mail in use; otherwise the account exists, lowercased and trimmed, with one OTP request valid for ten minutes, and 201 means the mail went out and the user name is free and derived from the name |
| Accounts.ReSendOtp | backEnd/src/controllers/user.controller.js:72-124 | 400 without e-mail, 404 for an unknown one; otherwise only the OTP state changes, as the throttle step says, with 429 when throttled and 500 when the mail fails |
| Accounts.VerifyOtp | backEnd/src/controllers/user.controller.js:126-171 | 400 for missing fields, 404 for an unknown e-mail; otherwise the account is verified exactly when the code matches in time |
| Accounts.SetPassword | backEnd/src/controllers/user.controller.js:173-197 | the hash is stored exactly when the e-mail is given, the password has at least six characters and the account exists and is verified |
| Accounts.SendDefaultUserName | backEnd/src/controllers/user.controller.js:199-220 | 400 without e-mail, 404 for an unknown account; a success proposes one or two free names for a verified account and stores nothing |
| Accounts.SetUserName | backEnd/src/controllers/user.controller.js:222-246 | 409 exactly when the name is taken; the lowercased name is stored exactly on success |
| Accounts.ImageUpload | backEnd/src/controllers/user.controller.js:253-303 | the upload checks pass exactly for a verified account sending an allow-listed image that uploads, and the quality is the profile quality of its size |
| Accounts.SetProfileImage | backEnd/src/controllers/user.controller.js:253-314 | on failure nothing changes; on success the URL is stored only when there was no avatar, otherwise the old asset's public id is deleted and the stored URL stays |
| Accounts.SetBannerImage | backEnd/src/controllers/user.controller.js:410-471 | the same rules for the banner |
| Accounts.OrKeep | backEnd/src/controllers/user.controller.js:488-493 | an empty submitted value keeps the stored one |
| Accounts.UpdateProfile | backEnd/src/controllers/user.controller.js:473-500 | 400 without e-mail, 404 for an unknown account; success exactly for a verified account, which then has each non-empty submitted field |
| Accounts.LoginUser | backEnd/src/controllers/user.controller.js:316-382 | 400 for missing fields, 404 for an unknown e-mail, 400 for an unverified account, 403 with nothing changed while a lock is in force; a verified account with no password yet is a 500 that counts no attempt; otherwise the lock state follows the login step, a token failure is a 500 and only a success records the login |
| Retweets.Find | backEnd/src/controllers/reTweet.controller.js:133-136 | the lookup finds a record of that user for that tweet, and finds none exactly when there is none |
| Retweets.StoredComment | backEnd/src/controllers/reTweet.controller.js:146 | an empty comment is not stored; any other is stored as sent |
| Retweets.IncTweetsCount | backEnd/src/controllers/reTweet.controller.js:155-157 | `$inc` of `tweetsCount` moves that user's counter by d, skips a missing user, and changes nothing else |
| Retweets.CreateRetweetStep | backEnd/src/controllers/reTweet.controller.js:90-157 | 400 exactly without an id, 500 exactly for an unparsable one, 404 exactly when the tweet or its author is missing, 409 exactly for a second retweet; on 201 the record is added and the tweet's `retweetCount` and the user's `tweetsCount` rise by one; a failure changes nothing |
| Retweets.RemoveRetweetStep | backEnd/src/controllers/reTweet.controller.js:182-204 | 400, 500 and 404 exactly in their cases; on success the record goes and the tweet's `retweetCount` drops by one, while the user's `tweetsCount` stays |
| Retweets.RepostsAfterAdd | backEnd/src/controllers/reTweet.controller.js:143-152 | a new record adds a repost to its own tweet only |
| Retweets.RepostsAfterRemove | backEnd/src/controllers/reTweet.controller.js:191-203 | a deleted record removes a repost from its own tweet only |
| Retweets.CountersAfterRepost | backEnd/src/controllers/reTweet.controller.js:150-203 | moving a tweet's `retweetCount` with its reposts keeps every counter in agreement |
| Retweets.CreateKeepsInvariants | backEnd/src/controllers/reTweet.controller.js:133-157 | creating a retweet keeps the counters in agreement and at most one record per user and tweet |
| Retweets.RemoveKeepsInvariants | backEnd/src/controllers/reTweet.controller.js:191-204 | removing a retweet keeps both invariants |
| Retweets.RetweetTwiceConflicts | backEnd/src/controllers/reTweet.controller.js:133-140 | a second retweet of the same tweet is a 409 and changes nothing |
| Retweets.CreateThenRemove | backEnd/src/controllers/reTweet.controller.js:143-204 | removing a just-created retweet restores the records and tweets, but the user's `tweetsCount` stays one higher |
| Retweets.RetweetCountBack | backEnd/src/controllers/reTweet.controller.js:151-202 | raising and then lowering a `retweetCount` restores the tweets |
| Retweets.CheckRetweetStatus | backEnd/src/controllers/reTweet.controller.js:471-491 | 400 and 500 exactly in their cases; otherwise `hasRetweeted` exactly when a record exists, the id of such a record, and `isQuote` exactly when its comment is non-empty |
| Retweets.StatusAfterCreate | backEnd/src/controllers/reTweet.controller.js:143-147 | right after a retweet the status names the new record and is a quote exactly when a non-empty comment was sent |
| Retweets.FindAfterCreate | backEnd/src/controllers/reTweet.controller.js:133-147 | after a first retweet the lookup finds the new record |
| Retweets.NewerRetweetIsPreorder | backEnd/src/controllers/reTweet.controller.js:236-238 | `createdAt` descending is a total preorder |
| Retweets.Matching | backEnd/src/controllers/reTweet.controller.js:229-281 | the matching records newest first, each exactly once, as many as `countDocuments` counts |
| Retweets.PageOfRetweets | backEnd/src/controllers/reTweet.controller.js:220-245 | a page holds at most `limit` matching records, newest first, and is exactly the `$skip`/`$limit` window of all matching records newest first |
| Retweets.EveryRetweetOnAPage | backEnd/src/controllers/reTweet.controller.js:220-245 | every matching record is on the page that holds its position |
| Retweets.Viewed | backEnd/src/controllers/reTweet.controller.js:246-276 | one entry per record, in the same order, with its id and record |
| Retweets.ListRetweets | backEnd/src/controllers/reTweet.controller.js:211-297 | at most `limit` items, newest first, each a matching record, with the page information of the total; the items are the views of that page's records |
| Retweets.EveryRetweetListed | backEnd/src/controllers/reTweet.controller.js:211-297 | a retweet listing misses nothing: every matching record is listed on some page |
| Retweets.ViewedListed | backEnd/src/controllers/reTweet.controller.js:246-276 | viewing keeps the order and what the match says |
| Retweets.GetTweetRetweets | backEnd/src/controllers/reTweet.controller.js:211-297 | 400, 500 and 404 exactly in their cases; otherwise one page of that tweet's retweets, each carrying the tweet |
| Retweets.GetUserRetweets | backEnd/src/controllers/reTweet.controller.js:300-391 | 400, 500 and 404 exactly in their cases; otherwise one page of that user's retweets |
| Retweets.GetMyRetweets | backEnd/src/controllers/reTweet.controller.js:394-468 | only the caller's records are listed, and the total is the number of them; the items are the views of the `$skip`/`$limit` window of the caller's records newest first |
| Retweets.CreateRetweet | backEnd/src/controllers/reTweet.controller.js:90-178 | the handler yields exactly the store and status of `CreateRetweetStep` |
| Retweets.RemoveRetweet | backEnd/src/controllers/reTweet.controller.js:182-208 | the handler yields exactly the store and status of `RemoveRetweetStep` |
| Slugs.Dashed | backEnd/src/controllers/community.controller.js:20 | lower-casing and replacing every character outside a-z and 0-9 by a dash keeps the length |
| Slugs.Squeeze | backEnd/src/controllers/community.controller.js:20 | every run of dashes becomes one dash: no double dash remains, the ends are kept and no new character appears |
| Slugs.TrimmedShape | backEnd/src/controllers/community.controller.js:20 | dropping a dash at either end of a squeezed string leaves no dash at the ends and no double dash |
| Slugs.SlugIsSlug | backEnd/src/controllers/community.controller.js:20 | every slug is lower-case letters and digits separated by single dashes, with no dash at either end |
| Slugs.SqueezeFixed | backEnd/src/controllers/community.controller.js:20 | a string without double dashes squeezes to itself |
| Slugs.SlugIdempotent | backEnd/src/controllers/community.controller.js:20 | the slug of a slug is itself |
| Slugs.Alnum | backEnd/src/controllers/community.controller.js:20 | the letters and digits of a string are slug characters |
| Slugs.DashedKeepsAlnum | backEnd/src/controllers/community.controller.js:20 | the dash replacement keeps every letter and digit of the lower-cased name |
| Slugs.SqueezeKeepsAlnum | backEnd/src/controllers/community.controller.js:20 | squeezing removes dashes only |
| Slugs.TrimmedKeepsAlnum | backEnd/src/controllers/community.controller.js:20 | trimming the end dashes removes dashes only |
| Slugs.SlugKeepsAlnum | backEnd/src/controllers/community.controller.js:20 | the slug holds exactly the letters and digits of the lower-cased name, in order |
| Memberships.FirstWhere | backEnd/src/controllers/communityMember.controller.js:21-24 | `findOne` returns a record satisfying the filter, and none exactly when no record does |
| Memberships.FindMember | backEnd/src/controllers/communityMember.controller.js:21-104 | the lookup finds a record of that user in that community, and none exactly when there is none |
| Memberships.FindAdmin | backEnd/src/controllers/communityMember.controller.js:205-209 | the admin lookup finds an admin record of that user in that community, and none exactly when there is none |
| Memberships.RoleIn | backEnd/src/controllers/communityMember.controller.js:101-112 | the caller's role is known exactly when the member lookup finds a record, and is that record's role |
| Memberships.FindAdminIsAdminMember | backEnd/src/controllers/communityMember.controller.js:205-211 | with one record per user and community, the admin lookup succeeds exactly when the caller's role is admin |
| Memberships.MembersOf | backEnd/src/controllers/communityMember.controller.js:132-135 | the records of a community are exactly the records that name it |
| Memberships.IncMembers | backEnd/src/controllers/communityMember.controller.js:38 | `$inc` of `membersCount` moves that community's counter by d, skips a missing community, and changes nothing else |
| Memberships.MembersOfAfterAdd | backEnd/src/controllers/communityMember.controller.js:31-36 | a new record joins the records of its own community only |
| Memberships.MembersOfAfterRemove | backEnd/src/controllers/communityMember.controller.js:116 | a deleted record leaves the records of its own community only |
| Memberships.CountsAfterChange | backEnd/src/controllers/communityMember.controller.js:38 | moving a counter together with its records keeps every `membersCount` in agreement |
| Memberships.JoinStep | backEnd/src/controllers/communityMember.controller.js:10-38 | 500 exactly for an unparsable id, 404 exactly for a missing community, 400 exactly for a second membership; on 201 a 'member' record is added and `membersCount` rises by one; a failure changes nothing |
| Memberships.LeaveStep | backEnd/src/controllers/communityMember.controller.js:96-119 | 500, 404 and 400 (an admin) exactly in their cases; on success the caller's record goes and `membersCount` drops by one |
| Memberships.RoleName | backEnd/src/controllers/communityMember.controller.js:200 | every stored role has a name |
| Memberships.ParseRole | backEnd/src/controllers/communityMember.controller.js:200-202 | a role is accepted exactly when it is "member", "moderator" or "admin", and then names that role |
| Memberships.ParseRoleName | backEnd/src/controllers/communityMember.controller.js:200-202 | every role's name is accepted as that role |
| Memberships.UpdateRoleStep | backEnd/src/controllers/communityMember.controller.js:195-223 | 400 exactly for a role outside the enum, 500 for an unparsable id, 403 exactly unless the caller is an admin, 404 exactly unless the record belongs to the community; on success only that record's role changes |
| Memberships.RemoveStep | backEnd/src/controllers/communityMember.controller.js:262-291 | 500 for an unparsable id or a missing record, 403 unless the caller is an admin or moderator or when a moderator targets an admin, 400 when an admin removes their own record; on success the record goes and the route's community's `membersCount` drops by one |
| Memberships.JoinKeepsConsistent | backEnd/src/controllers/communityMember.controller.js:21-38 | joining keeps the counters, one record per user and community, and every record attached |
| Memberships.AddKeepsCounts | backEnd/src/controllers/communityMember.controller.js:31-38 | a new record with its counter raised keeps the counters |
| Memberships.RemoveKeepsCounts | backEnd/src/controllers/communityMember.controller.js:116-119 | a deleted record with its counter lowered keeps the counters |
| Memberships.AddKeepsOnePerUser | backEnd/src/controllers/communityMember.controller.js:21-36 | a record for a pair that had none keeps one record per pair |
| Memberships.LeaveKeepsConsistent | backEnd/src/controllers/communityMember.controller.js:101-119 | leaving keeps the invariants |
| Memberships.UpdateRoleKeepsConsistent | backEnd/src/controllers/communityMember.controller.js:215-219 | a role change keeps the invariants |
| Memberships.RemoveKeepsConsistent | backEnd/src/controllers/communityMember.controller.js:288-291 | removing a record of the route's own community keeps the invariants |
| Memberships.RemoveElsewhereBreaksCounts | backEnd/src/controllers/communityMember.controller.js:286-291 | removing a record through another community's route lowers the wrong counter: both communities' counters then disagree with their records |
| Memberships.ScopedRemoveStep | backEnd/src/controllers/communityMember.controller.js:275-290 | the intended removal: a target record missing or of another community is a 404 with nothing changed, and a removal happens only within the route's community; otherwise as `RemoveStep` |
| Memberships.ScopedRemoveKeepsConsistent | backEnd/src/controllers/communityMember.controller.js:275-290 | the scoped removal keeps the directory consistent whatever record it names |
| Memberships.ScopedRemoveRefusesElsewhere | backEnd/src/controllers/communityMember.controller.js:275-290 | a record of another community that the route as written deletes is refused by the scoped removal, which changes nothing |
| Memberships.FindAfterJoin | backEnd/src/controllers/communityMember.controller.js:31-36 | after a first join the member lookup finds the new record |
| Memberships.JoinThenLeave | backEnd/src/controllers/communityMember.controller.js:10-119 | joining and then leaving restores the records and the counter |
| Memberships.JoinTwiceRefused | backEnd/src/controllers/communityMember.controller.js:21-28 | a second join is a 400 and changes nothing |
| Memberships.CheckMembership | backEnd/src/controllers/communityMember.controller.js:299-316 | 500 exactly for an unparsable id; otherwise `isMember` exactly when a record exists, with its role and join time, both null otherwise |
| Memberships.CheckAfterJoin | backEnd/src/controllers/communityMember.controller.js:31-36 | right after joining the check reports a 'member' record created at the join time |
| Memberships.RoleRank | backEnd/src/controllers/communityMember.controller.js:169-172 | the rank of a role's name among the three names |
| Memberships.RoleNamesOrder | backEnd/src/controllers/communityMember.controller.js:169-172 | sorting by role name puts 'admin' before 'member' before 'moderator' |
| Memberships.MemberOrderIsPreorder | backEnd/src/controllers/communityMember.controller.js:169-172 | role ascending, then join time ascending, is a total preorder |
| Memberships.ListedMembers | backEnd/src/controllers/communityMember.controller.js:132-172 | the records of the community (and role, when given) whose user exists, sorted |
| Memberships.GetCommunityMembers | backEnd/src/controllers/communityMember.controller.js:127-190 | 500 exactly for an unparsable id; otherwise at most `limit` sorted records of that community, role and existing users, with the total counted and the page count its ceiling |
| Memberships.EveryMemberOnAPage | backEnd/src/controllers/communityMember.controller.js:168-180 | every listed record is on the page that holds its position |
| Memberships.ModeratorsAfterMembers | backEnd/src/controllers/communityMember.controller.js:169-172 | no moderator is listed before a plain member, though moderators rank above members |
| Memberships.JoinCommunity | backEnd/src/controllers/communityMember.controller.js:10-38 | the handler yields exactly the directory and status of `JoinStep` |
| Memberships.LeaveCommunity | backEnd/src/controllers/communityMember.controller.js:96-119 | the handler yields exactly the directory and status of `LeaveStep` |
| Memberships.UpdateMemberRole | backEnd/src/controllers/communityMember.controller.js:195-223 | the handler yields exactly the records and status of `UpdateRoleStep` |
| Memberships.RemoveMember | backEnd/src/controllers/communityMember.controller.js:262-291 | the handler yields exactly the directory and status of `RemoveStep` |
| Communities.CreateCommunityStep | backEnd/src/controllers/community.controller.js:11-38 | 400 exactly without a name, 500 exactly for a blank trimmed name, an empty slug or a name or slug in use; on 201 the community is added with the trimmed name, its slug, one member, and the creator's admin record; a failure changes nothing |
| Communities.Founded | backEnd/src/controllers/community.controller.js:22-38 | the created community is added with its counter raised by one and no other changes |
| Communities.ReplaceKeepsDistinct | backEnd/src/controllers/community.controller.js:20-29 | storing a community whose name and slug no other uses keeps both unique indexes |
| Communities.CreateKeepsValid | backEnd/src/controllers/community.controller.js:11-38 | creation keeps the counters, one record per user, every record attached, and both unique indexes |
| Communities.FoundedKeepsConsistent | backEnd/src/controllers/community.controller.js:22-38 | a new community with its first record keeps the membership invariants |
| Communities.CreatedSlugShape | backEnd/src/controllers/community.controller.js:20 | the created community's slug has the slug shape and is its own slug |
| Communities.HexDigitValue | backEnd/src/controllers/community.controller.js:154-159 | a hexadecimal digit has a value below 16 |
| Communities.Summaries | backEnd/src/controllers/community.controller.js:180-211 | one summary per record of the community, with its role and join time |
| Communities.SummariesOf | backEnd/src/controllers/community.controller.js:180-211 | one summary per given record id |
| Communities.Selected | backEnd/src/controllers/community.controller.js:154-159 | the match selects by `_id` exactly when the identifier looks like an id, and by slug otherwise |
| Communities.GetCommunity | backEnd/src/controllers/community.controller.js:151-225 | 404 exactly when nothing matches; otherwise a matching community with a summary of each of its records |
| Communities.FoundBySlug | backEnd/src/controllers/community.controller.js:154-159 | with unique slugs, a community whose slug does not look like an id is found by its slug and no other |
| Communities.Edited | backEnd/src/controllers/community.controller.js:243-252 | a non-empty name replaces the name (trimmed) and regenerates the slug; description and privacy change only when given; creator and counter stay |
| Communities.UpdateCommunityStep | backEnd/src/controllers/community.controller.js:228-262 | 403 exactly unless the caller is an admin, 404 exactly for a missing community, 500 for an unparsable id or a name or slug in use; on success only that community changes, as `Edited` says |
| Communities.UpdateKeepsValid | backEnd/src/controllers/community.controller.js:243-262 | an update keeps the counters, the records and both unique indexes |
| Communities.EditKeepsValid | backEnd/src/controllers/community.controller.js:243-262 | storing a community with its counter unchanged and an unused name and slug keeps the directory valid |
| Communities.EmptyUpdateChangesNothing | backEnd/src/controllers/community.controller.js:243-262 | an update that gives nothing leaves the communities as they were |
| Communities.WithoutCommunity | backEnd/src/controllers/community.controller.js:319 | `deleteMany` keeps exactly the records of other communities, unchanged |
| Communities.DeleteCommunityStep | backEnd/src/controllers/community.controller.js:303-329 | 403 exactly unless the caller is an admin, 500 for an unparsable id; otherwise the community's records go first and then the community, with 404 when it was missing |
| Communities.DeleteNeverMissing | backEnd/src/controllers/community.controller.js:308-326 | while every record is attached, an admin's community exists, so the 404 cannot happen |
| Communities.DeleteKeepsValid | backEnd/src/controllers/community.controller.js:318-322 | deletion keeps the invariants |
| Communities.DropKeepsConsistent | backEnd/src/controllers/community.controller.js:318-322 | a community gone with all its records leaves the others' counters and records as they were |
| Communities.CreateCommunity | backEnd/src/controllers/community.controller.js:11-38 | the handler yields exactly the directory and status of `CreateCommunityStep` |
| Communities.UpdateCommunity | backEnd/src/controllers/community.controller.js:228-262 | the handler yields exactly the communities and status of `UpdateCommunityStep` |
| Communities.DeleteCommunity | backEnd/src/controllers/community.controller.js:303-329 | the handler yields exactly the directory and status of `DeleteCommunityStep` |
| CommunityPosts.NewerPostIsPreorder | backEnd/src/controllers/community.controller.js:646-648 | `createdAt` descending on posts is a total preorder |
| CommunityPosts.MergePage | backEnd/src/controllers/community.controller.js:646-648 | the two pages concatenated, sorted and cut: sorted, as many posts as fit in `limit`, drawn from the two pages, and none left out is newer than a kept one |
| CommunityPosts.PagedMerge | backEnd/src/controllers/community.controller.js:511-521 | page `page` of each source, merged: sorted, each from one of the sources, as many as fit of the two source pages, and none of those pages' posts left out is newer than a kept one |
| CommunityPosts.PagedMergeSkipsPost | backEnd/src/controllers/community.controller.js:518-521 | with a limit of 1, tweets at 10 and 5 and a retweet at 9, the retweet is on no page |
| CommunityPosts.MergedPage | backEnd/src/controllers/community.controller.js:646-648 | the intended merge, both sources merged in full and then paged: at most `limit` posts, sorted |
| CommunityPosts.MergedPageCoversAll | backEnd/src/controllers/community.controller.js:646-648 | with the intended merge every post of either source is on the page that holds its position |
| CommunityPosts.MergedPageShowsSkippedPost | backEnd/src/controllers/community.controller.js:646-648 | on that example the intended merge shows the retweet on page 2 |
| CommunityPosts.TweetPosts | backEnd/src/controllers/community.controller.js:436-522 | one tweet post per record, in order |
| CommunityPosts.RepostPosts | backEnd/src/controllers/community.controller.js:631 | one retweet post per record, in order, each typed "quote_retweet" because the type test is a non-empty string literal |
| CommunityPosts.TweetPostsSorted | backEnd/src/controllers/community.controller.js:515 | tweet posts of records sorted newest first are sorted |
| CommunityPosts.RepostPostsSorted | backEnd/src/controllers/community.controller.js:635 | retweet posts of records sorted newest first are sorted |
| CommunityPosts.TweetPostsAuthored | backEnd/src/controllers/community.controller.js:439 | tweet posts of authored records are authored |
| CommunityPosts.TweetQueryAuthored | backEnd/src/controllers/community.controller.js:436-522 | the tweet query yields tweets of the authors only |
| CommunityPosts.RepostPostsAuthored | backEnd/src/controllers/community.controller.js:529 | retweet posts of the authors' records are theirs |
| CommunityPosts.RepostQueryAuthored | backEnd/src/controllers/community.controller.js:526-641 | the retweet query yields retweets by the authors only |
| CommunityPosts.TweetSource | backEnd/src/controllers/community.controller.js:436-522 | the tweet query's posts, newest first, all by the authors |
| CommunityPosts.RepostSource | backEnd/src/controllers/community.controller.js:526-641 | the retweet query's posts, newest first |
| CommunityPosts.RepostSourceAuthored | backEnd/src/controllers/community.controller.js:529 | every post of the retweet query is a retweet by the authors |
| CommunityPosts.MergedFromAuthors | backEnd/src/controllers/community.controller.js:646-648 | a merge of the two sources holds posts of the authors only |
| CommunityPosts.MergePosts | backEnd/src/controllers/community.controller.js:646-648 | the merge on posts: sorted, each from a source, the newest `limit` posts of the two source pages |
| CommunityPosts.FeedOf | backEnd/src/controllers/community.controller.js:436-668 | one page: the newest `limit` posts of page `page` of the tweet source and of the retweet source, newest first, all by the authors, with the total of both counts and the page count its ceiling |
| CommunityPosts.FeedPosts | backEnd/src/controllers/community.controller.js:436-648 | the posts of one page: the newest `limit` posts of page `page` of the tweet source and of the retweet source, newest first, all by the authors |
| CommunityPosts.SourcesAuthored | backEnd/src/controllers/community.controller.js:646-648 | posts drawn from the two sources are posts of the authors |
| CommunityPosts.CommunitiesOf | backEnd/src/controllers/community.controller.js:414-415 | exactly the communities the caller has a record in |
| CommunityPosts.UsersIn | backEnd/src/controllers/community.controller.js:429-433 | exactly the users with a record in one of the communities, each once |
| CommunityPosts.GetCommunityPosts | backEnd/src/controllers/community.controller.js:408-670 | no membership gives an empty page with total 0; otherwise at most `limit` posts, newest first, all by users who share a community with the caller |
| CommunityPosts.GetCommunitySpecificPosts | backEnd/src/controllers/community.controller.js:673-855 | 500 exactly for an unparsable id, 403 exactly for a non-member; otherwise the feed of the community's members |
| CommunityPosts.OneCommunityFeedsAgree | backEnd/src/controllers/community.controller.js:408-855 | a caller in one community sees the same feed from both endpoints |
| Messages.SendChecks | backEnd/src/controllers/message.controller.js:26-75 | the checks pass exactly for a given, existing recipient other than the sender, some text or a file, text of at most 1000 characters and at most five files; 404 exactly for a well-formed id of no user, 500 for a malformed id; other failures are 400 |
| Messages.StoredText | backEnd/src/controllers/message.controller.js:162 | no text stays absent, and any other text is stored trimmed |
| Messages.SendStep | backEnd/src/controllers/message.controller.js:22-164 | a failure leaves the messages unchanged and the status is 201, 400, 404 or 500 |
| Messages.SendCreatedIff | backEnd/src/controllers/message.controller.js:22-164 | a message is created exactly when every check passes, every file is accepted and every upload returns a URL |
| Messages.SendCreates | backEnd/src/controllers/message.controller.js:149-164 | the new message goes from the sender to the recipient, unread, with the trimmed text and one media entry per file in file order, and no other message changes |
| Messages.SchemaSendStep | backEnd/src/models/message.model.js:9 | as the schema lets `Message.create` run: a message is stored exactly when the controller would store it and it has no media; a refusal stores nothing |
| Messages.FileMessageRefused | backEnd/src/controllers/message.controller.js:149-164 | under the schema as written, a message that passes every check with at least one uploaded file is a 500 and nothing is stored |
| Messages.BlankTextStoredEmpty | backEnd/src/controllers/message.controller.js:30-31 | the content check reads the untrimmed text, so spaces alone with no file are accepted and stored as empty text |
| Messages.SendMessage | backEnd/src/controllers/message.controller.js:22-164 | the handler yields exactly the messages and status of `SendStep` |
| Messages.MarkedRead | backEnd/src/controllers/message.controller.js:297-305 | `updateMany` sets `read` on exactly the unread messages from one user to the other and changes nothing else |
| Messages.UnreadCount | backEnd/src/controllers/message.controller.js:540-551 | the count is zero exactly when no message to the caller is unread |
| Messages.MarkedReadIdempotent | backEnd/src/controllers/message.controller.js:488-498 | marking twice is marking once, and marking changes only `read` |
| Messages.NoneUnreadAfterMark | backEnd/src/controllers/message.controller.js:488-498 | after marking nothing from that user is unread |
| Messages.MarkedAt | backEnd/src/controllers/message.controller.js:488-498 | one message is unread for the caller after marking exactly when it was unread and not from that user before |
| Messages.MarkedPointwise | backEnd/src/controllers/message.controller.js:488-498 | the caller's unread messages after marking are exactly those before that were not from that user |
| Messages.MarkLowersUnreadCount | backEnd/src/controllers/message.controller.js:488-551 | marking lowers the caller's unread count by exactly the number marked |
| Messages.UnreadSplit | backEnd/src/controllers/message.controller.js:540-551 | the unread messages to the caller split into those from that user and the rest |
| Messages.MarkAsReadStep | backEnd/src/controllers/message.controller.js:484-502 | 500 for a malformed id; otherwise the messages from the other user are marked and `modifiedCount` is the number of them that were unread |
| Messages.MarkAsReadTwice | backEnd/src/controllers/message.controller.js:484-502 | an immediate second call modifies nothing |
| Messages.MarkAsRead | backEnd/src/controllers/message.controller.js:484-502 | the handler yields exactly the messages and result of `MarkAsReadStep` |
| Messages.NewerMessageIsPreorder | backEnd/src/controllers/message.controller.js:286 | `createdAt` descending is a total preorder |
| Messages.NewestMatches | backEnd/src/controllers/message.controller.js:230-287 | the matching messages, newest first |
| Messages.SortedNewest | backEnd/src/controllers/message.controller.js:286 | each matching message exactly once, newest first |
| Messages.PairNewestFirst | backEnd/src/controllers/message.controller.js:230-287 | the pair's messages between existing users, newest first |
| Messages.ReversedChronological | backEnd/src/controllers/message.controller.js:317 | reversing a newest-first list makes it oldest first |
| Messages.ShownPage | backEnd/src/controllers/message.controller.js:286-317 | a reversed page holds at most `limit` of the pair's messages, oldest first |
| Messages.ReversedPage | backEnd/src/controllers/message.controller.js:286-317 | reversing a page of a newest-first list makes it oldest first |
| Messages.ConversationOf | backEnd/src/controllers/message.controller.js:230-322 | at most `limit` of the pair's messages, oldest first: exactly the page's slice of the newest-first list, reversed; the total is the pair's count and the page count its ceiling |
| Messages.EveryMessageShown | backEnd/src/controllers/message.controller.js:286-317 | every message between the two users, both existing, is shown on some page |
| Messages.GetConversationStep | backEnd/src/controllers/message.controller.js:224-322 | 500 for a malformed id; otherwise the page is read and then the counterpart's messages are marked read |
| Messages.OpenedConversationRead | backEnd/src/controllers/message.controller.js:297-305 | after opening a conversation nothing from the counterpart is unread, and the caller's unread count drops by exactly what was marked |
| Messages.GetConversation | backEnd/src/controllers/message.controller.js:224-322 | the handler yields exactly the messages and page of `GetConversationStep` |
| Messages.Counterparts | backEnd/src/controllers/message.controller.js:345-352 | every user the caller has a message with is a group key |
| Messages.CounterpartHasMessage | backEnd/src/controllers/message.controller.js:345-352 | every group key has a message with the caller |
| Messages.LatestOf | backEnd/src/controllers/message.controller.js:342-353 | `$first` after the newest-first sort is a matching record no older than any other, and there is none exactly when nothing matches |
| Messages.CounterpartHasLatest | backEnd/src/controllers/message.controller.js:345-353 | no group is empty |
| Messages.Summary | backEnd/src/controllers/message.controller.js:345-369 | a group's summary is about its user |
| Messages.SummaryNewest | backEnd/src/controllers/message.controller.js:342-353 | the summary's last message is a stored message with that user and none with that user is newer |
| Messages.SummaryCounts | backEnd/src/controllers/message.controller.js:354-368 | the summary counts the unread messages to the caller and all messages with that user: at least one, and no fewer than the unread |
| Messages.Summaries | backEnd/src/controllers/message.controller.js:345-369 | one summary per listed user |
| Messages.NewerConversationIsPreorder | backEnd/src/controllers/message.controller.js:436 | last message `createdAt` descending is a total preorder |
| Messages.Grouped | backEnd/src/controllers/message.controller.js:345-369 | exactly one summary per counterpart |
| Messages.SummariesDistinct | backEnd/src/controllers/message.controller.js:345-369 | summaries of distinct users are distinct |
| Messages.SummariesCover | backEnd/src/controllers/message.controller.js:345-369 | the summaries of the listed users are exactly theirs |
| Messages.AllConversations | backEnd/src/controllers/message.controller.js:332-437 | every shown conversation exactly once, newest last message first |
| Messages.OnePerCounterpart | backEnd/src/controllers/message.controller.js:345-352 | no counterpart is listed twice |
| Messages.GetConversations | backEnd/src/controllers/message.controller.js:326-481 | at most `limit` shown conversations, newest first, with the total counting every counterpart and the page count its ceiling |
| Messages.EveryConversationListed | backEnd/src/controllers/message.controller.js:436-442 | every shown conversation is on some page |
| Messages.DeleteStep | backEnd/src/controllers/message.controller.js:505-535 | success exactly when the message exists and the caller sent it, which removes it; otherwise 404 or 500 and nothing changes |
| Messages.OnlySenderDeletes | backEnd/src/controllers/message.controller.js:509-516 | every message someone else sent, and every other message, survives a delete unchanged |
| Messages.DeleteMessage | backEnd/src/controllers/message.controller.js:505-535 | the handler yields exactly the messages and status of `DeleteStep` |
| GrockThreads.ThreadName | backEnd/src/controllers/grockMessage.controller.js:16 | the name is "GrockMessage_" followed by at least one decimal digit and nothing else |
| GrockThreads.CreateThreadStep | backEnd/src/controllers/grockMessage.controller.js:9-25 | 201 with a new empty thread owned by the caller and named after the clock, stored under the new id |
| GrockThreads.CreateThreadKeepsLinked | backEnd/src/controllers/grockMessage.controller.js:15-18 | a new thread under a fresh id keeps the threads and entries linked |
| GrockThreads.CreateThread | backEnd/src/controllers/grockMessage.controller.js:9-25 | the handler yields exactly the threads and result of `CreateThreadStep` |
| GrockThreads.Rows | backEnd/src/controllers/grockMessage.controller.js:39-45 | one row per thread, in order |
| GrockThreads.UserThreads | backEnd/src/controllers/grockMessage.controller.js:28-53 | one row per thread of the caller, each with its name and `messagesCount` the length of its list |
| GrockThreads.UserThreadsComplete | backEnd/src/controllers/grockMessage.controller.js:34-37 | every thread of the caller has its row |
| GrockThreads.MessagesCountIsEntries | backEnd/src/controllers/grockMessage.controller.js:43 | in linked collections `messagesCount` is the number of the thread's entries |
| GrockThreads.DeleteThreadStep | backEnd/src/controllers/grockMessage.controller.js:55-71 | 400 exactly for a malformed id, success exactly when the caller owns the thread, which goes with every entry it lists; otherwise 404 and nothing changes |
| GrockThreads.DeleteThreadCascades | backEnd/src/controllers/grockMessage.controller.js:63-68 | in linked collections deleting a thread removes exactly its entries and keeps the collections linked |
| GrockThreads.DeleteThread | backEnd/src/controllers/grockMessage.controller.js:55-71 | the handler yields exactly the collections and status of `DeleteThreadStep` |
| GrockChat.OpenChecks | backEnd/src/controllers/grockConversation.controller.js:46-58 | the checks pass exactly for a well-formed id, a non-blank message and a thread the caller owns; 404 exactly for the last failing; other failures are 400 |
| GrockChat.Answer | backEnd/src/controllers/grockConversation.controller.js:60-108 | 201 with the two entries exactly when the AI answers; otherwise 500 and nothing stored |
| GrockChat.CreateStep | backEnd/src/controllers/grockConversation.controller.js:42-111 | success exactly when the checks pass and the AI answers the message alone; a failure stores nothing |
| GrockChat.ExchangeAppendsTwo | backEnd/src/controllers/grockConversation.controller.js:65-95 | an exchange appends the user's entry and then the AI's to the thread, adds exactly those two entries and changes nothing else |
| GrockChat.ExchangeKeepsLinked | backEnd/src/controllers/grockConversation.controller.js:65-95 | an exchange under fresh ids keeps the collections linked |
| GrockChat.AppendTwoDistinct | backEnd/src/controllers/grockConversation.controller.js:87-93 | appending two new distinct ids keeps the list without repeats |
| GrockChat.CreateConversation | backEnd/src/controllers/grockConversation.controller.js:42-111 | the handler yields exactly the collections and result of `CreateStep` |
| GrockChat.OlderEntryIsPreorder | backEnd/src/controllers/grockConversation.controller.js:136 | `createdAt` ascending is a total preorder |
| GrockChat.SortedOldest | backEnd/src/controllers/grockConversation.controller.js:130-137 | each matching entry exactly once, oldest first |
| GrockChat.History | backEnd/src/controllers/grockConversation.controller.js:130-137 | the caller's entries of the thread, oldest first |
| GrockChat.OldestMatches | backEnd/src/controllers/grockConversation.controller.js:130-137 | the matching entries, oldest first |
| GrockChat.HistoryCount | backEnd/src/controllers/grockConversation.controller.js:130-137 | the history holds as many entries as the filter matches |
| GrockChat.HistoryComplete | backEnd/src/controllers/grockConversation.controller.js:130-137 | every entry of the caller in the thread is in its history |
| GrockChat.HistoryIsThread | backEnd/src/controllers/grockConversation.controller.js:114-149 | in linked collections the owner's history holds as many entries as the thread lists |
| GrockChat.OwnerWritesThread | backEnd/src/controllers/grockConversation.controller.js:65-80 | every entry of a thread is its owner's |
| GrockChat.GetHistoryStep | backEnd/src/controllers/grockConversation.controller.js:114-149 | 400 exactly for a malformed id; success exactly when the caller owns the thread, with its history; otherwise 404 |
| GrockChat.ContextWindow | backEnd/src/controllers/grockConversation.controller.js:324-327 | the context is the first ten entries of the oldest-first history, or all of them when fewer |
| GrockChat.Render | backEnd/src/controllers/grockConversation.controller.js:343-345 | a rendered entry holds a line break exactly when its message does |
| GrockChat.Lines | backEnd/src/controllers/grockConversation.controller.js:343-345 | one rendered line per context entry, in order |
| GrockChat.PromptLines | backEnd/src/controllers/grockConversation.controller.js:343-346 | the prompt read line by line is one line per context entry (a single empty line when there is none), then the user's line and the "AI:" cue, when no message holds a line break |
| GrockChat.CueLines | backEnd/src/controllers/grockConversation.controller.js:346 | the two lines after the context are joined by one line break and hold none |
| GrockChat.ContinueStep | backEnd/src/controllers/grockConversation.controller.js:305-387 | success exactly when the checks pass and the AI answers the prompt built from the context window; a failure stores nothing |
| GrockChat.ContinueConversation | backEnd/src/controllers/grockConversation.controller.js:305-387 | the handler yields exactly the collections and result of `ContinueStep` |
| GrockChat.FrozenContext | backEnd/src/controllers/grockConversation.controller.js:324-327 | once the history holds ten entries, nothing added later reaches the context |
| GrockChat.StaleContext | backEnd/src/controllers/grockConversation.controller.js:324-327 | with more than ten entries, the newest is missing from the context whenever it is newer than the tenth |
| GrockChat.RecentWindow | backEnd/src/controllers/grockConversation.controller.js:327 | the intended context: the last ten entries, oldest first |
| GrockChat.RecentWindowKeepsNewest | backEnd/src/controllers/grockConversation.controller.js:327 | the intended context holds the newest entry, is sorted, and leaves out only entries no newer than any it shows |
| GrockChat.SuffixOrdered | backEnd/src/controllers/grockConversation.controller.js:327 | a suffix of an oldest-first history is sorted, and nothing before it is newer than anything in it |
| GrockChat.WindowsAgreeWhenShort | backEnd/src/controllers/grockConversation.controller.js:324-327 | up to ten entries both contexts agree |
| GrockChat.GetEntryStep | backEnd/src/controllers/grockConversation.controller.js:152-170 | 400 exactly for a malformed id; success exactly for an entry of the caller, which is returned; otherwise 404 |
| GrockChat.UpdateStep | backEnd/src/controllers/grockConversation.controller.js:173-203 | 400 exactly for a malformed id or a blank message; success exactly for the caller's own non-AI entry, whose text becomes the trimmed message; nothing else changes |
| GrockChat.UpdateOnlyOwnMessage | backEnd/src/controllers/grockConversation.controller.js:187-195 | an update never touches the AI's entries or anyone else's, stores non-empty text, and keeps the collections linked |
| GrockChat.UpdateEntry | backEnd/src/controllers/grockConversation.controller.js:173-203 | the handler yields exactly the collections and result of `UpdateStep` |
| GrockChat.Pull | backEnd/src/controllers/grockConversation.controller.js:235 | `$pull` removes every occurrence of the id and nothing else |
| GrockChat.DeleteEntryStep | backEnd/src/controllers/grockConversation.controller.js:206-250 | 400 exactly for a malformed id; success exactly for an entry of the caller, which goes and is pulled from its own thread only; otherwise 404 and nothing changes |
| GrockChat.DeleteEntryKeepsLinked | backEnd/src/controllers/grockConversation.controller.js:220-240 | after a delete no thread lists the entry and the collections stay linked |
| GrockChat.DeleteEntry | backEnd/src/controllers/grockConversation.controller.js:206-250 | the handler yields exactly the collections and status of `DeleteEntryStep` |
| GrockChat.Cleared | backEnd/src/controllers/grockConversation.controller.js:280-283 | exactly the entries that are not the caller's in the thread remain, unchanged |
| GrockChat.DeleteAllStep | backEnd/src/controllers/grockConversation.controller.js:253-302 | 400 exactly for a malformed id; success exactly when the caller owns the thread: its entries go, its list is emptied and the number deleted is reported |
| GrockChat.DeleteAllClearsThread | backEnd/src/controllers/grockConversation.controller.js:280-290 | in linked collections clearing a thread deletes every entry it lists and reports exactly that many |
| GrockChat.DeleteAllKeepsLinked | backEnd/src/controllers/grockConversation.controller.js:280-290 | clearing a thread keeps the collections linked |
| GrockChat.ClearKeepsLinked | backEnd/src/controllers/grockConversation.controller.js:280-290 | emptying a thread's list with its entries gone keeps the collections linked |
| GrockChat.DeleteAll | backEnd/src/controllers/grockConversation.controller.js:253-302 | the handler yields exactly the collections and result of `DeleteAllStep` |
| GrockChat.LengthSum | backEnd/src/controllers/grockConversation.controller.js:401 | the length total of an empty group is zero |
| GrockChat.GroupOf | backEnd/src/controllers/grockConversation.controller.js:397-403 | a type's group is present exactly when it has an entry, and counts them |
| GrockChat.TotalOfAppend | backEnd/src/controllers/grockConversation.controller.js:420 | the total of two lists of groups is the sum of their totals |
| GrockChat.StatsTotal | backEnd/src/controllers/grockConversation.controller.js:390-427 | `total_conversations` is the number of the caller's entries |
| GrockChat.GroupsTotal | backEnd/src/controllers/grockConversation.controller.js:397-420 | the two groups together count all the caller's entries |

## Left out

### Not modelled

- `searchTweets` and `searchMessages`: they rank with MongoDB `$text` scoring or regular expressions, which the model does not define.
- `getAllCommunities`, `getUserCommunities` and `getUserMemberships`: they only filter, sort and page, the same shapes as the listings that are modelled.
- `getUserNotifications`, `logoutUser` and `currentUser`: they only read or clear tokens and hold no rule.
- Routing, the Express app, the socket server and the authentication middleware. The caller's id is a parameter of each handler.
- Response shaping by `$lookup`/`$project`: which user fields are shown and the field names. The listings keep the documents and the ids they join.
- Deleting assets from the storage service, in `updateTweet`, `deleteTweet` and `deleteMessage`. The profile handlers return the public id they would delete.
- `avgMessageLength` in `getConversationStats`: a floating-point average with rounding. The count and the length total are modelled.
- Query-string parsing of `page` and `limit`. Every listing takes `page >= 1` and `limit >= 1`.

### Modelled differently

- Oracles become parameters:
  - bcrypt hashing and comparison, token issuance and e-mail delivery;
  - the upload service (a URL per file, "" on failure) and the AI service; for images the "" also stands for a failed `sharp` re-encode before the upload, which throws and ends in the same 500;
  - `Math.random` and `Date.now`.
- ObjectIds are natural numbers. A path parameter is `ObjectId(id)` or `Malformed`, as the ObjectId check or cast sees it. A fresh id is a parameter that no document uses.
- MongoDB transactions (`deleteTweet`, the AI chat exchanges) are single atomic steps. Thread deletion in `deleteGrockMessage` is not transactional in the source, but it has no failure point between its writes, so it is one step too.
- In an AI exchange both entries are created at the same `now`. Nothing orders the user's entry id before the AI's, so in `History` and `ContextWindow` the tie may put the answer before its question; MongoDB's ObjectIds would order them.
- String lengths count characters of `seq<char>`, not UTF-16 code units.
- `toLowerCase` and `trim` cover ASCII letters and the common whitespace characters only.
- Files are reduced to the fields the rules read: buffer present, mimetype, size and original name.
- Every `$sort` on `createdAt` breaks ties by ascending id: the tweet listings, the retweet listings, conversations, the AI history and the community feed. The `$group` outputs of `getConversations` are likewise ordered by user id before the sort, and those of `getConversationStats` list the caller's group before the AI's. MongoDB leaves the order of equal sort keys and of `$group` results unspecified, so ties and groups may come out in another order.
- The message schema declares `media` as strings, but `sendMessage` stores objects. Mongoose most likely refuses to cast such an object to a string, so a message with a file would fail with a 500 after its uploads. `SendMessage` follows the controller's intent and stores the objects; `SchemaSendStep` states the behaviour under the schema, listed under Findings.
- A missing `isPrivate` counts as false, its schema default.

### Weaker than the source

- TweetReads.EveryTimelineTweetListed: it proves completeness of the corrected timeline, `GetTimeline`. As written, `getTimeline` answers 500 on every call (`TimelineAsWrittenFails`, under Findings), so no tweet is ever listed.
- TweetReads.GetTimeline: it is the corrected timeline, equal to `TimelineWithCountStage`; the handler as written is `TimelineWithStage` with the listing's own stage, a 500.
- UserNames.GenerateUserNames: the source loops until it finds two free names, with no bound; the model runs at most `fuel` rounds. The contract says what happens when the rounds run out.
- Accounts.RegisterUser: the two unreachable 500 branches (no code generated, `User.create` returning null) are not modelled.
- GrockThreads.CreateThread: the unreachable 400 for a missing caller id and 500 for a failed create are not modelled.
- GrockThreads.UserThreads: the unreachable 400 for a missing caller id and 404 for a null aggregate result are not modelled.

## Findings

The first, second and fourth rows are in code that the handler models keep as written: `FeedOf` uses `PagedMerge`, `ContinueStep` uses `ContextWindow`, and `RemoveMember` follows `RemoveStep`. The corrected definitions stand beside them with their intended properties proved. In the third and fifth rows the model follows the intent: `SendMessage` stores the file entries, and `GetTimeline` is the timeline with a listing stage that parses; `SchemaSendStep` and `TimelineWithStage` state what the code as written does.

| source | as written | input that shows it | evidently intended | confidence | as-written member | corrected member |
|---|---|---|---|---|---|---|
| backEnd/src/controllers/community.controller.js:518-648 | each source is paged with `skip = (page - 1) * limit` before the two pages are merged and cut to `limit`, so a post that falls behind the other source's posts on one page never appears on a later page | limit 1, tweets posted at times 10 and 5, one retweet at time 9: page 1 shows 10, page 2 shows 5, and the retweet is on no page | merge both sources in full, newest first, then page the merged list | not executed; high | CommunityPosts.PagedMergeSkipsPost | CommunityPosts.MergedPageCoversAll, CommunityPosts.MergedPageShowsSkippedPost |
| backEnd/src/controllers/grockConversation.controller.js:324-327 | the context query sorts ascending and limits to 10, so it takes the ten oldest entries; the comment says the last ten | a thread with eleven entries whose newest is newer than the tenth: the newest entry is not in the prompt, and nothing added later ever is | the ten most recent entries, oldest first | not executed; high | GrockChat.StaleContext, GrockChat.FrozenContext | GrockChat.RecentWindow, GrockChat.RecentWindowKeepsNewest |
| backEnd/src/models/message.model.js:9 | the schema declares `media` as an array of strings, while `sendMessage` hands `{url, type, name}` objects to `Message.create`, whose String cast refuses a plain object | a message to an existing user with one accepted image whose upload returns a URL: the file is uploaded, `Message.create` fails validation, the answer is 500 and no message is stored | store each file as a `{url, type, name}` entry and answer 201 | not executed; medium, as it rests on how Mongoose casts a plain object to a string | Messages.FileMessageRefused | Messages.SendCreates, Messages.SendCreatedIff |
| backEnd/src/controllers/communityMember.controller.js:262-296 | the requester's role is checked in the route's community, but the target record is found and deleted by id alone, and the route community's `membersCount` is the one lowered | a moderator of community A names the record of a member of community B: the record is deleted, A's count drops while its records stay, and B keeps its count with one record fewer | look the target up within the route's community and answer 404 otherwise, as `updateMemberRole` does | not executed; high | Memberships.RemoveElsewhereBreaksCounts | Memberships.ScopedRemoveKeepsConsistent, Memberships.ScopedRemoveRefusesElsewhere |
| backEnd/src/controllers/tweet.controller.js:847-864 | the listing aggregate's second `$match` writes `{ $in: ["$author._id", allUserIds] }` straight into `$and`, with no field name and no `$expr`; MongoDB refuses the pipeline as an unknown top-level operator, and `asyncHandler` turns the error into a 500 | any call to `getTimeline`, even with no tweets stored: the aggregate fails before reading anything and the answer is 500 | the count query's rule on the looked-up author's id, `{ "author._id": { $in: allUserIds } }` (at this stage `author` is the joined user document), which keeps every tweet the first `$match` kept | not executed; high | TweetReads.TimelineAsWrittenFails | TweetReads.TimelineWithCountStage, TweetReads.EveryTimelineTweetListed |
