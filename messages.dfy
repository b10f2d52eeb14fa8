/** Direct messages, backEnd/src/controllers/message.controller.js: sending
    (with the file rules of module Media), one conversation with read
    marking, the list of conversations, explicit read marking, the unread
    count and deletion by the sender. */
module Messages {
  import opened Wrappers
  import opened TweetModel
  import opened Store
  import opened Text
  import opened Collections
  import opened Paging
  import Media

  const MAX_TEXT: nat := 1000

  // -------------------------------------------------------------- send

  /** A request field JavaScript finds truthy: present and not "". */
  predicate Given(s: Option<string>) {
    s.Some? && s.value != ""
  }

  /** The checks of `sendMessage` before the first upload, in the handler's
      order: recipient given, some content, text length, recipient id (a
      malformed one is a CastError of `findById`), recipient exists, not
      the sender, file count. */
  function SendChecks(users: map<UserId, Profile>, from: UserId, to: Option<IdParam>, text: Option<string>,
                      fileCount: nat): (r: Checked<UserId>)
    ensures r.Pass? <==>
      && to.Some? && to.value.ObjectId? && to.value.id in users && to.value.id != from
      && (Given(text) || fileCount > 0) && (Given(text) ==> |text.value| <= MAX_TEXT)
      && fileCount <= Media.MAX_MESSAGE_FILES
    ensures r.Pass? ==> r.value == to.value.id
    ensures r == Stop(NOT_FOUND) <==>
      && to.Some? && to.value.ObjectId? && to.value.id !in users
      && (Given(text) || fileCount > 0) && (Given(text) ==> |text.value| <= MAX_TEXT)
    ensures r == Stop(SERVER_ERROR) <==>
      to.Some? && to.value.Malformed? && (Given(text) || fileCount > 0) && (Given(text) ==> |text.value| <= MAX_TEXT)
    ensures r.Stop? ==> r.status in {BAD_REQUEST, NOT_FOUND, SERVER_ERROR}
  {
    if to.None? then Stop(BAD_REQUEST)
    else if !Given(text) && fileCount == 0 then Stop(BAD_REQUEST)
    else if Given(text) && |text.value| > MAX_TEXT then Stop(BAD_REQUEST)
    else
      match to.value
      case Malformed => Stop(SERVER_ERROR)
      case ObjectId(u) =>
        if u !in users then Stop(NOT_FOUND)
        else if u == from then Stop(BAD_REQUEST)
        else if fileCount > Media.MAX_MESSAGE_FILES then Stop(BAD_REQUEST)
        else Pass(u)
  }

  /** `text?.trim()`: no text stays absent, any other text is trimmed. */
  function StoredText(text: Option<string>): (r: Option<string>)
    ensures r.Some? <==> text.Some?
    ensures r.Some? ==> r.value == Trim(text.value)
  {
    match text
    case None => None
    case Some(t) => Some(Trim(t))
  }

  /** The messages and the status after `sendMessage`; `upload(i)` is the
      URL the storage service returns for file i ("" when it fails) and
      `id` the new document's id. */
  function SendStep(messages: map<MessageId, Message>, users: map<UserId, Profile>, from: UserId,
                    to: Option<IdParam>, text: Option<string>, files: seq<Media.Upload>,
                    upload: nat -> string, id: MessageId, now: nat): (r: (map<MessageId, Message>, nat))
    ensures r.1 != CREATED ==> r.0 == messages
    ensures r.1 in {CREATED, BAD_REQUEST, NOT_FOUND, SERVER_ERROR}
  {
    match SendChecks(users, from, to, text, |files|)
    case Stop(s) => (messages, s)
    case Pass(u) =>
      match Media.UploadSpec(files, Media.MessageFileVerdict, upload, 0)
      case Stop(s) => (messages, s)
      case Pass(media) => (messages[id := Message(from, u, StoredText(text), media, false, now)], CREATED)
  }

  /** A message is created exactly when every check passes, every file is
      accepted by its rule and every upload returns a URL. */
  lemma SendCreatedIff(messages: map<MessageId, Message>, users: map<UserId, Profile>, from: UserId,
                       to: Option<IdParam>, text: Option<string>, files: seq<Media.Upload>,
                       upload: nat -> string, id: MessageId, now: nat)
    ensures SendStep(messages, users, from, to, text, files, upload, id, now).1 == CREATED <==>
      SendChecks(users, from, to, text, |files|).Pass?
      && forall i :: 0 <= i < |files| ==> Media.MessageFileVerdict(files[i]).Accept? && upload(i) != ""
  {
    assert forall f :: Media.MessageFileVerdict(f) != Media.Skip;
    Media.UploadAllOrNothing(files, Media.MessageFileVerdict, upload);
  }

  /** The created message goes from the sender to the recipient, unread,
      with the trimmed text and one media entry per file, in file order,
      carrying the file's URL, mimetype and name; no other message changes. */
  lemma SendCreates(messages: map<MessageId, Message>, users: map<UserId, Profile>, from: UserId,
                    to: Option<IdParam>, text: Option<string>, files: seq<Media.Upload>,
                    upload: nat -> string, id: MessageId, now: nat)
    requires SendStep(messages, users, from, to, text, files, upload, id, now).1 == CREATED
    ensures var after := SendStep(messages, users, from, to, text, files, upload, id, now).0;
      && after.Keys == messages.Keys + {id}
      && (forall k :: k in messages && k != id ==> after[k] == messages[k])
      && after[id].from == from && after[id].to == to.value.id && !after[id].read && after[id].createdAt == now
      && after[id].text == StoredText(text)
      && |after[id].media| == |files|
      && forall i :: 0 <= i < |files| ==>
           after[id].media[i] == Media.Medium(upload(i), files[i].mimetype, files[i].originalName)
  {
    var checks := SendChecks(users, from, to, text, |files|);
    assert checks.Pass?;
    var uploaded := Media.UploadSpec(files, Media.MessageFileVerdict, upload, 0);
    assert uploaded.Pass?;
    var media := uploaded.value;
    assert SendStep(messages, users, from, to, text, files, upload, id, now).0
        == messages[id := Message(from, to.value.id, StoredText(text), media, false, now)];
    Media.UploadKeepsOrder(files, Media.MessageFileVerdict, upload, 0);
  }

  /** What the schema's `media: [String]` lets `Message.create` store: the
      controller's `{url, type, name}` entries are plain objects with no
      string form, so a non-empty media list fails the String cast. */
  predicate FitsSchema(m: Message) {
    m.media == []
  }

  /** `sendMessage` as the schema lets it run: a message the controller
      builds with media fails validation in `Message.create`, after the
      uploads, and the thrown error is a 500 with nothing stored. */
  function SchemaSendStep(messages: map<MessageId, Message>, users: map<UserId, Profile>, from: UserId,
                          to: Option<IdParam>, text: Option<string>, files: seq<Media.Upload>,
                          upload: nat -> string, id: MessageId, now: nat): (r: (map<MessageId, Message>, nat))
    ensures r.1 != CREATED ==> r.0 == messages
    ensures r.1 == CREATED ==> r == SendStep(messages, users, from, to, text, files, upload, id, now)
    ensures r.1 == CREATED <==> SendStep(messages, users, from, to, text, files, upload, id, now).1 == CREATED && files == []
  {
    var (after, status) := SendStep(messages, users, from, to, text, files, upload, id, now);
    if status == CREATED then
      SendCreates(messages, users, from, to, text, files, upload, id, now);
      if FitsSchema(after[id]) then (after, status) else (messages, SERVER_ERROR)
    else (after, status)
  }

  /** Under the schema as written, a message that passes every check with
      at least one accepted and uploaded file is not stored: the answer is
      500 where the controller meant 201. */
  lemma FileMessageRefused(messages: map<MessageId, Message>, users: map<UserId, Profile>, from: UserId,
                           to: Option<IdParam>, text: Option<string>, files: seq<Media.Upload>,
                           upload: nat -> string, id: MessageId, now: nat)
    requires SendStep(messages, users, from, to, text, files, upload, id, now).1 == CREATED && files != []
    ensures SchemaSendStep(messages, users, from, to, text, files, upload, id, now) == (messages, SERVER_ERROR)
  {
    SendCreates(messages, users, from, to, text, files, upload, id, now);
  }

  /** The content check looks at the text before it is trimmed: a text of
      spaces alone, without files, is accepted and stored as empty text
      with no media. */
  lemma BlankTextStoredEmpty(messages: map<MessageId, Message>, users: map<UserId, Profile>, from: UserId,
                             to: UserId, upload: nat -> string, id: MessageId, now: nat)
    requires to in users && to != from
    ensures var (after, status) := SendStep(messages, users, from, Some(ObjectId(to)), Some("  "), [], upload, id, now);
      status == CREATED && after[id].text == Some("") && after[id].media == []
  {
    assert Trim("  ") == "";
    assert SendChecks(users, from, Some(ObjectId(to)), Some("  "), 0) == Pass(to);
    assert Media.UploadSpec([], Media.MessageFileVerdict, upload, 0) == Pass([]);
  }

  /** The handler: the checks, then the upload loop, then `Message.create`. */
  method SendMessage(db: Db, from: UserId, to: Option<IdParam>, text: Option<string>, files: seq<Media.Upload>,
                     upload: nat -> string, id: MessageId, now: nat) returns (status: nat)
    modifies db`messages
    ensures (db.messages, status) == SendStep(old(db.messages), db.users, from, to, text, files, upload, id, now)
  {
    var checked := SendChecks(db.users, from, to, text, |files|);
    if checked.Stop? {
      return checked.status;
    }
    var uploaded := Media.UploadFiles(files, Media.MessageFileVerdict, upload);
    if uploaded.Stop? {
      return uploaded.status;
    }
    db.messages := db.messages[id := Message(from, checked.value, StoredText(text), uploaded.value, false, now)];
    return CREATED;
  }

  // ------------------------------------------------------ read marking

  /** `updateMany({ from, to, read: false }, { $set: { read: true } })`. */
  function MarkedRead(messages: map<MessageId, Message>, from: UserId, to: UserId): (r: map<MessageId, Message>)
    ensures r.Keys == messages.Keys
    ensures forall k :: k in messages ==>
      r[k] == if messages[k].from == from && messages[k].to == to then messages[k].(read := true) else messages[k]
  {
    map k | k in messages :: if messages[k].from == from && messages[k].to == to then messages[k].(read := true) else messages[k]
  }

  /** Unread messages from `from` to `to`: the documents `updateMany` modifies. */
  function UnreadFrom(from: UserId, to: UserId): ((MessageId, Message)) -> bool {
    (rec: (MessageId, Message)) => rec.1.from == from && rec.1.to == to && !rec.1.read
  }

  /** Unread messages to `to`: `getUnreadCount`'s query. */
  function UnreadTo(to: UserId): ((MessageId, Message)) -> bool {
    (rec: (MessageId, Message)) => rec.1.to == to && !rec.1.read
  }

  function UnreadToNotFrom(from: UserId, to: UserId): ((MessageId, Message)) -> bool {
    (rec: (MessageId, Message)) => rec.1.to == to && !rec.1.read && rec.1.from != from
  }

  /** `getUnreadCount`. */
  function UnreadCount(messages: map<MessageId, Message>, me: UserId): (n: nat)
    ensures n == 0 <==> forall k :: k in messages ==> messages[k].to != me || messages[k].read
  {
    var recs := Records(messages);
    assert forall k :: k in messages ==> (k, messages[k]) in recs;
    Count(recs, UnreadTo(me))
  }

  /** Marking only sets `read`, and only on messages from `from` to `to`;
      marking twice is marking once. */
  lemma MarkedReadIdempotent(messages: map<MessageId, Message>, from: UserId, to: UserId)
    ensures MarkedRead(MarkedRead(messages, from, to), from, to) == MarkedRead(messages, from, to)
    ensures forall k :: k in messages ==> MarkedRead(messages, from, to)[k].(read := messages[k].read) == messages[k]
  {
  }

  /** After marking nothing from `from` to `to` is unread. */
  lemma NoneUnreadAfterMark(messages: map<MessageId, Message>, from: UserId, to: UserId)
    ensures Count(Records(MarkedRead(messages, from, to)), UnreadFrom(from, to)) == 0
  {
  }

  /** One message, before and after the marking. */
  lemma MarkedAt(messages: map<MessageId, Message>, from: UserId, me: UserId, k: MessageId)
    requires k in messages
    ensures UnreadTo(me)((k, MarkedRead(messages, from, me)[k])) == UnreadToNotFrom(from, me)((k, messages[k]))
  {
  }

  /** Position by position, a record is unread for the caller after the
      marking exactly when it was unread and not from `from` before, so the
      two counts agree. */
  lemma MarkedPointwise(messages: map<MessageId, Message>, from: UserId, me: UserId)
    ensures Count(Records(MarkedRead(messages, from, me)), UnreadTo(me)) == Count(Records(messages), UnreadToNotFrom(from, me))
  {
    var after := MarkedRead(messages, from, me);
    RecordsSameKeys(messages, after);
    var ra, rm := Records(after), Records(messages);
    forall i | 0 <= i < |ra| ensures UnreadTo(me)(ra[i]) == UnreadToNotFrom(from, me)(rm[i]) {
      MarkedAt(messages, from, me, rm[i].0);
    }
    CountPointwise(ra, rm, UnreadTo(me), UnreadToNotFrom(from, me));
  }

  /** Marking the messages from one counterpart lowers the caller's unread
      count by exactly the number marked. */
  lemma MarkLowersUnreadCount(messages: map<MessageId, Message>, from: UserId, me: UserId)
    ensures UnreadCount(MarkedRead(messages, from, me), me) + Count(Records(messages), UnreadFrom(from, me))
         == UnreadCount(messages, me)
  {
    MarkedPointwise(messages, from, me);
    UnreadSplit(Records(messages), from, me);
  }

  /** An unread message to the caller is from `from` or not, never both. */
  lemma UnreadSplit(recs: seq<(MessageId, Message)>, from: UserId, me: UserId)
    ensures Count(recs, UnreadTo(me)) == Count(recs, UnreadToNotFrom(from, me)) + Count(recs, UnreadFrom(from, me))
  {
    CountSplit(recs, UnreadTo(me), UnreadToNotFrom(from, me), UnreadFrom(from, me));
  }

  /** `markAsRead`: 500 for an id the query cannot cast; otherwise the
      messages from `other` to the caller are marked and the number of
      documents modified is returned. */
  function MarkAsReadStep(messages: map<MessageId, Message>, me: UserId, other: IdParam)
    : (r: (map<MessageId, Message>, Result<nat>))
    ensures other.Malformed? ==> r == (messages, Fail(SERVER_ERROR))
    ensures other.ObjectId? ==>
      && r.0 == MarkedRead(messages, other.id, me)
      && r.1 == Ok(OK, Count(Records(messages), UnreadFrom(other.id, me)))
  {
    match other
    case Malformed => (messages, Fail(SERVER_ERROR))
    case ObjectId(o) => (MarkedRead(messages, o, me), Ok(OK, Count(Records(messages), UnreadFrom(o, me))))
  }

  /** An immediate second `markAsRead` modifies nothing. */
  lemma MarkAsReadTwice(messages: map<MessageId, Message>, me: UserId, other: UserId)
    ensures var (after, _) := MarkAsReadStep(messages, me, ObjectId(other));
      MarkAsReadStep(after, me, ObjectId(other)) == (after, Ok(OK, 0))
  {
    NoneUnreadAfterMark(messages, other, me);
    MarkedReadIdempotent(messages, other, me);
  }

  method MarkAsRead(db: Db, me: UserId, other: IdParam) returns (r: Result<nat>)
    modifies db`messages
    ensures (db.messages, r) == MarkAsReadStep(old(db.messages), me, other)
  {
    if other.Malformed? {
      return Fail(SERVER_ERROR);
    }
    var modified := Count(Records(db.messages), UnreadFrom(other.id, me));
    db.messages := MarkedRead(db.messages, other.id, me);
    return Ok(OK, modified);
  }

  // ------------------------------------------------------ conversation

  /** The messages between two users, either way. */
  function Between(me: UserId, other: UserId): ((MessageId, Message)) -> bool {
    (rec: (MessageId, Message)) => (rec.1.from == me && rec.1.to == other) || (rec.1.from == other && rec.1.to == me)
  }

  /** ... whose sender and recipient both exist (the two `$unwind`s). */
  function ShownBetween(users: map<UserId, Profile>, me: UserId, other: UserId): ((MessageId, Message)) -> bool {
    (rec: (MessageId, Message)) => Between(me, other)(rec) && rec.1.from in users && rec.1.to in users
  }

  /** A record of the collection that the conversation query returns. */
  predicate InConversation(messages: map<MessageId, Message>, users: map<UserId, Profile>, me: UserId, other: UserId,
                           rec: (MessageId, Message)) {
    rec.0 in messages && messages[rec.0] == rec.1 && ShownBetween(users, me, other)(rec)
  }

  function NewerMessage(a: (MessageId, Message), b: (MessageId, Message)): bool {
    a.1.createdAt >= b.1.createdAt
  }

  lemma NewerMessageIsPreorder()
    ensures Total(NewerMessage) && Transitive(NewerMessage)
  {
  }

  /** Oldest first. */
  predicate Chronological(s: seq<(MessageId, Message)>) {
    forall i, j :: 0 <= i < j < |s| ==> s[i].1.createdAt <= s[j].1.createdAt
  }

  /** The messages matching `p`, newest first. */
  function NewestMatches(messages: map<MessageId, Message>, p: ((MessageId, Message)) -> bool)
    : (r: seq<(MessageId, Message)>)
    ensures SortedBy(r, NewerMessage)
    ensures forall i :: 0 <= i < |r| ==> r[i].0 in messages && messages[r[i].0] == r[i].1 && p(r[i])
    ensures forall rec :: rec in r <==> rec.0 in messages && messages[rec.0] == rec.1 && p(rec)
  {
    var recs := SortedNewest(messages, p);
    MatchedAt(messages, p, recs);
    recs
  }

  function SortedNewest(messages: map<MessageId, Message>, p: ((MessageId, Message)) -> bool)
    : (r: seq<(MessageId, Message)>)
    ensures SortedBy(r, NewerMessage)
    ensures forall rec :: rec in r <==> rec.0 in messages && messages[rec.0] == rec.1 && p(rec)
  {
    NewerMessageIsPreorder();
    SortedMatches(messages, p, NewerMessage)
  }

  /** The pair's messages, newest first. */
  function PairNewestFirst(messages: map<MessageId, Message>, users: map<UserId, Profile>, me: UserId, other: UserId)
    : (r: seq<(MessageId, Message)>)
    ensures SortedBy(r, NewerMessage)
    ensures forall i :: 0 <= i < |r| ==> InConversation(messages, users, me, other, r[i])
    ensures forall rec :: rec in r <==> InConversation(messages, users, me, other, rec)
  {
    NewestMatches(messages, ShownBetween(users, me, other))
  }

  /** Reversing a newest-first list makes it oldest first. */
  lemma ReversedChronological(s: seq<(MessageId, Message)>)
    requires SortedBy(s, NewerMessage)
    ensures Chronological(Reversed(s))
  {
    var r := Reversed(s);
    forall i, j | 0 <= i < j < |r| ensures r[i].1.createdAt <= r[j].1.createdAt {
      assert NewerMessage(s[|s| - 1 - j], s[|s| - 1 - i]);
    }
  }

  /** A page of the newest-first list, reversed, is oldest first and holds
      only messages of the pair. */
  lemma ShownPage(messages: map<MessageId, Message>, users: map<UserId, Profile>, me: UserId, other: UserId,
                  page: nat, limit: nat)
    requires page >= 1 && limit >= 1
    ensures var shown := Reversed(PageSlice(PairNewestFirst(messages, users, me, other), page, limit));
      && |shown| <= limit
      && Chronological(shown)
      && forall i :: 0 <= i < |shown| ==> InConversation(messages, users, me, other, shown[i])
  {
    var newest := PairNewestFirst(messages, users, me, other);
    ReversedPage(newest, page, limit);
    PageSliceAll(newest, page, limit, (rec: (MessageId, Message)) => InConversation(messages, users, me, other, rec));
  }

  /** Reversing a page of a newest-first list makes it oldest first. */
  lemma ReversedPage(newest: seq<(MessageId, Message)>, page: nat, limit: nat)
    requires page >= 1 && limit >= 1
    requires SortedBy(newest, NewerMessage)
    ensures Chronological(Reversed(PageSlice(newest, page, limit)))
  {
    PageSliceSorted(newest, page, limit, NewerMessage);
    ReversedChronological(PageSlice(newest, page, limit));
  }

  datatype ConversationPage = ConversationPage(messages: seq<(MessageId, Message)>, total: nat, page: nat, totalPages: nat)

  /** The newest-first page of the pair's messages, reversed. */
  function ConversationOf(messages: map<MessageId, Message>, users: map<UserId, Profile>, me: UserId, other: UserId,
                          page: nat, limit: nat): (r: ConversationPage)
    requires page >= 1 && limit >= 1
    ensures |r.messages| <= limit
    ensures Chronological(r.messages)
    ensures forall i :: 0 <= i < |r.messages| ==> InConversation(messages, users, me, other, r.messages[i])
    ensures r.total == Count(Records(messages), Between(me, other)) && r.page == page
    ensures r.totalPages == CeilDiv(r.total, limit)
    ensures r.messages == Reversed(PageSlice(PairNewestFirst(messages, users, me, other), page, limit))
  {
    var shown := Reversed(PageSlice(PairNewestFirst(messages, users, me, other), page, limit));
    ShownPage(messages, users, me, other, page, limit);
    var total := Count(Records(messages), Between(me, other));
    ConversationPage(shown, total, page, CeilDiv(total, limit))
  }

  /** The conversation misses nothing: every message between the two users,
      both of whom exist, is shown on some page. */
  lemma EveryMessageShown(messages: map<MessageId, Message>, users: map<UserId, Profile>, me: UserId, other: UserId,
                          limit: nat, id: MessageId)
    requires limit >= 1
    requires id in messages && ShownBetween(users, me, other)((id, messages[id]))
    ensures exists page :: page >= 1 && (id, messages[id]) in ConversationOf(messages, users, me, other, page, limit).messages
  {
    var rec := (id, messages[id]);
    var newest := PairNewestFirst(messages, users, me, other);
    assert InConversation(messages, users, me, other, rec);
    var page := OnSomePage(newest, rec, limit);
    InReversed(PageSlice(newest, page, limit), rec);
    assert rec in ConversationOf(messages, users, me, other, page, limit).messages;
  }

  /** `getConversation`: 500 when the id does not build an ObjectId;
      otherwise the page is read first and then the messages from `other`
      to the caller are marked read, so the page shows them still unread. */
  function GetConversationStep(messages: map<MessageId, Message>, users: map<UserId, Profile>, me: UserId,
                               other: IdParam, page: nat, limit: nat): (r: (map<MessageId, Message>, Result<ConversationPage>))
    requires page >= 1 && limit >= 1
    ensures other.Malformed? ==> r == (messages, Fail(SERVER_ERROR))
    ensures other.ObjectId? ==>
      && r.0 == MarkedRead(messages, other.id, me)
      && r.1 == Ok(OK, ConversationOf(messages, users, me, other.id, page, limit))
  {
    match other
    case Malformed => (messages, Fail(SERVER_ERROR))
    case ObjectId(o) => (MarkedRead(messages, o, me), Ok(OK, ConversationOf(messages, users, me, o, page, limit)))
  }

  /** Opening a conversation leaves nothing from the counterpart unread,
      and the caller's unread count drops by what was marked. */
  lemma OpenedConversationRead(messages: map<MessageId, Message>, users: map<UserId, Profile>, me: UserId,
                               other: UserId, page: nat, limit: nat)
    requires page >= 1 && limit >= 1
    ensures var (after, _) := GetConversationStep(messages, users, me, ObjectId(other), page, limit);
      && Count(Records(after), UnreadFrom(other, me)) == 0
      && UnreadCount(after, me) + Count(Records(messages), UnreadFrom(other, me)) == UnreadCount(messages, me)
  {
    NoneUnreadAfterMark(messages, other, me);
    MarkLowersUnreadCount(messages, other, me);
  }

  method GetConversation(db: Db, me: UserId, other: IdParam, page: nat, limit: nat) returns (r: Result<ConversationPage>)
    requires page >= 1 && limit >= 1
    modifies db`messages
    ensures (db.messages, r) == GetConversationStep(old(db.messages), db.users, me, other, page, limit)
  {
    if other.Malformed? {
      return Fail(SERVER_ERROR);
    }
    var shown := ConversationOf(db.messages, db.users, me, other.id, page, limit);
    db.messages := MarkedRead(db.messages, other.id, me);
    return Ok(OK, shown);
  }

  // ----------------------------------------------------- conversations

  /** The caller sent or received the message. */
  predicate Involves(me: UserId, m: Message) {
    m.from == me || m.to == me
  }

  /** The other side of a message, as `$group` computes it. */
  function Counterpart(me: UserId, m: Message): UserId {
    if m.from == me then m.to else m.from
  }

  /** The messages of the caller's conversation with `u`. */
  function WithUser(me: UserId, u: UserId): ((MessageId, Message)) -> bool {
    (rec: (MessageId, Message)) => Involves(me, rec.1) && Counterpart(me, rec.1) == u
  }

  function UnreadWithUser(me: UserId, u: UserId): ((MessageId, Message)) -> bool {
    (rec: (MessageId, Message)) => WithUser(me, u)(rec) && rec.1.to == me && !rec.1.read
  }

  /** The users the caller has messages with: the `$group` keys. */
  function Counterparts(messages: map<MessageId, Message>, me: UserId): (r: set<UserId>)
    ensures forall k :: k in messages && Involves(me, messages[k]) ==> Counterpart(me, messages[k]) in r
  {
    set k | k in messages && Involves(me, messages[k]) :: Counterpart(me, messages[k])
  }

  /** Every counterpart has a message with the caller. */
  lemma CounterpartHasMessage(messages: map<MessageId, Message>, me: UserId, u: UserId)
    requires u in Counterparts(messages, me)
    ensures exists k :: k in messages && WithUser(me, u)((k, messages[k]))
  {
  }

  /** `$first` of the group after `$sort: { createdAt: -1 }`: the latest
      record of `recs` satisfying `p`, the earliest listed among equals. */
  function LatestOf(recs: seq<(MessageId, Message)>, p: ((MessageId, Message)) -> bool): (r: Option<(MessageId, Message)>)
    ensures r.None? <==> forall x :: x in recs ==> !p(x)
    ensures r.Some? ==> r.value in recs && p(r.value)
    ensures r.Some? ==> forall x :: x in recs && p(x) ==> x.1.createdAt <= r.value.1.createdAt
  {
    if recs == [] then None
    else
      var rest := LatestOf(recs[1..], p);
      assert forall x :: x in recs <==> x == recs[0] || x in recs[1..];
      if !p(recs[0]) then rest
      else if rest.Some? && rest.value.1.createdAt > recs[0].1.createdAt then rest
      else Some(recs[0])
  }

  /** A counterpart's group is not empty. */
  lemma CounterpartHasLatest(messages: map<MessageId, Message>, me: UserId, u: UserId)
    requires u in Counterparts(messages, me)
    ensures LatestOf(Records(messages), WithUser(me, u)).Some?
  {
    var k :| k in messages && Involves(me, messages[k]) && Counterpart(me, messages[k]) == u;
    assert (k, messages[k]) in Records(messages);
  }

  datatype Conversation = Conversation(user: UserId, lastMessage: (MessageId, Message), unreadCount: nat, totalMessages: nat)

  /** One `$group` output: the newest message, the number of unread messages
      to the caller and the number of messages, with `u`. */
  function Summary(messages: map<MessageId, Message>, me: UserId, u: UserId): (r: Conversation)
    requires u in Counterparts(messages, me)
    ensures r.user == u
  {
    var recs := Records(messages);
    CounterpartHasLatest(messages, me, u);
    var last := LatestOf(recs, WithUser(me, u));
    Conversation(u, last.value, Count(recs, UnreadWithUser(me, u)), Count(recs, WithUser(me, u)))
  }

  /** The summary holds a message of the store with `u`, and no message
      with `u` is newer. */
  lemma SummaryNewest(messages: map<MessageId, Message>, me: UserId, u: UserId)
    requires u in Counterparts(messages, me)
    ensures var c := Summary(messages, me, u);
      && c.lastMessage.0 in messages && messages[c.lastMessage.0] == c.lastMessage.1
      && WithUser(me, u)(c.lastMessage)
      && forall k :: k in messages && WithUser(me, u)((k, messages[k])) ==>
           messages[k].createdAt <= c.lastMessage.1.createdAt
  {
    var recs := Records(messages);
    CounterpartHasLatest(messages, me, u);
    var last := LatestOf(recs, WithUser(me, u));
    assert Summary(messages, me, u).lastMessage == last.value;
    forall k | k in messages && WithUser(me, u)((k, messages[k]))
      ensures messages[k].createdAt <= last.value.1.createdAt
    {
      assert (k, messages[k]) in recs;
    }
  }

  /** The summary counts the unread messages to the caller and all the
      messages with `u`: at least one, and no fewer than the unread. */
  lemma SummaryCounts(messages: map<MessageId, Message>, me: UserId, u: UserId)
    requires u in Counterparts(messages, me)
    ensures var c := Summary(messages, me, u);
      && c.unreadCount == Count(Records(messages), UnreadWithUser(me, u))
      && c.totalMessages == Count(Records(messages), WithUser(me, u))
      && 1 <= c.totalMessages && c.unreadCount <= c.totalMessages
  {
    var recs := Records(messages);
    var c := Summary(messages, me, u);
    SummaryNewest(messages, me, u);
    var i :| 0 <= i < |recs| && recs[i] == c.lastMessage;
    assert WithUser(me, u)(recs[i]);
    CountSplit(recs, WithUser(me, u), UnreadWithUser(me, u),
      (rec: (MessageId, Message)) => WithUser(me, u)(rec) && !(rec.1.to == me && !rec.1.read));
  }

  /** The `$group` outputs for the listed users. */
  function Summaries(messages: map<MessageId, Message>, me: UserId, us: seq<UserId>): (r: seq<Conversation>)
    requires forall i :: 0 <= i < |us| ==> us[i] in Counterparts(messages, me)
    ensures |r| == |us|
    ensures forall i :: 0 <= i < |us| ==> r[i] == Summary(messages, me, us[i])
  {
    seq(|us|, i requires 0 <= i < |us| => Summary(messages, me, us[i]))
  }

  /** The three `$unwind`s: the counterpart and both ends of the last
      message exist. */
  function Shown(users: map<UserId, Profile>): Conversation -> bool {
    (c: Conversation) => c.user in users && c.lastMessage.1.from in users && c.lastMessage.1.to in users
  }

  /** A conversation the list may hold. */
  predicate Listed(messages: map<MessageId, Message>, users: map<UserId, Profile>, me: UserId, c: Conversation) {
    c.user in Counterparts(messages, me) && c == Summary(messages, me, c.user) && Shown(users)(c)
  }

  function NewerConversation(a: Conversation, b: Conversation): bool {
    a.lastMessage.1.createdAt >= b.lastMessage.1.createdAt
  }

  lemma NewerConversationIsPreorder()
    ensures Total(NewerConversation) && Transitive(NewerConversation)
  {
  }

  /** The `$group` outputs for every counterpart, one each. */
  function Grouped(messages: map<MessageId, Message>, me: UserId): (r: seq<Conversation>)
    ensures Distinct(r)
    ensures forall c :: c in r <==> c.user in Counterparts(messages, me) && c == Summary(messages, me, c.user)
  {
    var us := Keys(Counterparts(messages, me));
    SummariesDistinct(messages, me, us);
    SummariesCover(messages, me, us);
    Summaries(messages, me, us)
  }

  /** Summaries of distinct users are distinct. */
  lemma SummariesDistinct(messages: map<MessageId, Message>, me: UserId, us: seq<UserId>)
    requires forall i :: 0 <= i < |us| ==> us[i] in Counterparts(messages, me)
    requires forall i, j :: 0 <= i < j < |us| ==> us[i] < us[j]
    ensures Distinct(Summaries(messages, me, us))
  {
    var all := Summaries(messages, me, us);
    forall i, j | 0 <= i < j < |all| ensures all[i] != all[j] {
      assert all[i].user == us[i] && all[j].user == us[j];
    }
  }

  /** The summaries of the listed users include every summary of a listed
      user. */
  lemma SummariesCover(messages: map<MessageId, Message>, me: UserId, us: seq<UserId>)
    requires forall i :: 0 <= i < |us| ==> us[i] in Counterparts(messages, me)
    ensures forall c :: c in Summaries(messages, me, us) <==> c.user in us && c.user in Counterparts(messages, me) && c == Summary(messages, me, c.user)
  {
    var all := Summaries(messages, me, us);
    forall c: Conversation | c.user in us && c.user in Counterparts(messages, me) && c == Summary(messages, me, c.user)
      ensures c in all
    {
      var i :| 0 <= i < |us| && us[i] == c.user;
      assert all[i] == c;
    }
  }

  /** Every shown conversation, newest last message first. */
  function AllConversations(messages: map<MessageId, Message>, users: map<UserId, Profile>, me: UserId)
    : (r: seq<Conversation>)
    ensures SortedBy(r, NewerConversation)
    ensures forall c :: c in r <==> Listed(messages, users, me, c)
    ensures Distinct(r)
  {
    var all := Grouped(messages, me);
    var shown := Filter(all, Shown(users));
    FewerKeepsDistinct(all, shown);
    NewerConversationIsPreorder();
    var sorted := SortBy(shown, NewerConversation);
    FewerKeepsDistinct(shown, sorted);
    forall c: Conversation ensures c in sorted <==> c in shown {
      assert c in sorted <==> c in multiset(sorted);
    }
    sorted
  }

  /** Conversations listed for one user are about distinct counterparts. */
  lemma OnePerCounterpart(messages: map<MessageId, Message>, users: map<UserId, Profile>, me: UserId)
    ensures var r := AllConversations(messages, users, me);
      forall i, j :: 0 <= i < j < |r| ==> r[i].user != r[j].user
  {
    var r := AllConversations(messages, users, me);
    forall i, j | 0 <= i < j < |r| ensures r[i].user != r[j].user {
      assert r[i] in r && r[j] in r;
      assert Listed(messages, users, me, r[i]) && Listed(messages, users, me, r[j]);
    }
  }

  datatype ConversationsPage = ConversationsPage(conversations: seq<Conversation>, total: nat, page: nat, totalPages: nat)

  /** `getConversations`: one page of the conversations, newest last message
      first; the total counts every counterpart, whether or not the user
      still exists. */
  function GetConversations(messages: map<MessageId, Message>, users: map<UserId, Profile>, me: UserId,
                            page: nat, limit: nat): (r: ConversationsPage)
    requires page >= 1 && limit >= 1
    ensures |r.conversations| <= limit
    ensures SortedBy(r.conversations, NewerConversation)
    ensures forall c :: c in r.conversations ==> Listed(messages, users, me, c)
    ensures r.total == |Counterparts(messages, me)| && r.page == page
    ensures r.totalPages == CeilDiv(r.total, limit)
  {
    var all := AllConversations(messages, users, me);
    PageSliceSorted(all, page, limit, NewerConversation);
    var total := |Counterparts(messages, me)|;
    ConversationsPage(PageSlice(all, page, limit), total, page, CeilDiv(total, limit))
  }

  /** Every shown conversation is on some page: the one holding its
      position in the newest-first list. */
  lemma EveryConversationListed(messages: map<MessageId, Message>, users: map<UserId, Profile>, me: UserId,
                                c: Conversation, limit: nat)
    requires limit >= 1
    requires Listed(messages, users, me, c)
    ensures exists page: nat :: page >= 1 && c in GetConversations(messages, users, me, page, limit).conversations
  {
    var all := AllConversations(messages, users, me);
    var j :| 0 <= j < |all| && all[j] == c;
    EveryElementOnItsPage(all, j, limit);
    var page := PageOf(j, limit);
    var slice := PageSlice(all, page, limit);
    assert slice[j - Skip(page, limit)] in slice;
    assert GetConversations(messages, users, me, page, limit).conversations == slice;
  }

  // ------------------------------------------------------------ delete

  /** `deleteMessage`: 500 for an id the query cannot cast, 404 unless the
      message exists and the caller sent it, otherwise it is removed. */
  function DeleteStep(messages: map<MessageId, Message>, me: UserId, message: IdParam): (r: (map<MessageId, Message>, nat))
    ensures r.1 in {OK, NOT_FOUND, SERVER_ERROR}
    ensures r.1 == OK <==> message.ObjectId? && message.id in messages && messages[message.id].from == me
    ensures r.1 == OK ==> r.0 == messages - {message.id}
    ensures r.1 != OK ==> r.0 == messages
  {
    match message
    case Malformed => (messages, SERVER_ERROR)
    case ObjectId(k) =>
      if k in messages && messages[k].from == me then (messages - {k}, OK) else (messages, NOT_FOUND)
  }

  /** Only senders delete: whatever the request, every message someone else
      sent survives it unchanged, and so does every other message. */
  lemma OnlySenderDeletes(messages: map<MessageId, Message>, me: UserId, message: IdParam)
    ensures var after := DeleteStep(messages, me, message).0;
      && after.Keys <= messages.Keys
      && (forall k :: k in after ==> after[k] == messages[k])
      && (forall k :: k in messages && messages[k].from != me ==> k in after)
      && (forall k :: k in messages && (message.Malformed? || k != message.id) ==> k in after)
  {
  }

  method DeleteMessage(db: Db, me: UserId, message: IdParam) returns (status: nat)
    modifies db`messages
    ensures (db.messages, status) == DeleteStep(old(db.messages), me, message)
  {
    if message.Malformed? {
      return SERVER_ERROR;
    }
    var k := message.id;
    if k !in db.messages || db.messages[k].from != me {
      return NOT_FOUND;
    }
    db.messages := db.messages - {k};
    return OK;
  }
}
