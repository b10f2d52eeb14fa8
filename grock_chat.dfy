/** The entries of an AI chat thread, after
    backEnd/src/controllers/grockConversation.controller.js: each exchange
    stores the user's message and the AI's answer as two entries and pushes
    both ids onto the thread; entries can be listed, read, edited (the user's
    own only), deleted one by one or all at once; a continued exchange sends
    the AI a prompt built from earlier entries. The AI itself is a parameter
    mapping a prompt to its answer, `None` when the call fails. */
module GrockChat {
  import opened Wrappers
  import opened TweetModel
  import opened Store
  import opened Text
  import opened Collections
  import opened GrockThreads

  /** `!s || s.trim() === ''`. */
  predicate Blank(s: Option<string>) {
    s.None? || Trim(s.value) == ""
  }

  /** An answer the AI entry can hold: the call succeeded, and the text is
      not empty, which the schema's `required` would reject. */
  predicate Answered(reply: Option<string>) {
    reply.Some? && reply.value != ""
  }

  /** The caller's entries of thread `t`: the handlers' `{ messageRef, user }`
      filter. */
  function Mine(t: ThreadId, me: UserId): ((EntryId, Entry)) -> bool {
    (rec: (EntryId, Entry)) => rec.1.messageRef == t && rec.1.user == me
  }

  /** New ObjectIds for the two entries of an exchange. */
  predicate FreshEntries(c: Chats, userEntry: EntryId, aiEntry: EntryId) {
    userEntry !in c.entries && aiEntry !in c.entries && userEntry != aiEntry
  }

  // ----------------------------------------------------------- exchange

  /** The checks before an exchange: 400 for an id that is not an ObjectId,
      400 for a blank message, 404 unless the caller owns the thread. */
  function OpenChecks(c: Chats, me: UserId, thread: IdParam, userMessage: Option<string>): (r: Checked<ThreadId>)
    ensures r.Pass? <==>
      thread.ObjectId? && !Blank(userMessage) && thread.id in c.threads && c.threads[thread.id].user == me
    ensures r.Pass? ==> r.value == thread.id
    ensures r.Stop? && r.status == NOT_FOUND <==>
      thread.ObjectId? && !Blank(userMessage) && (thread.id !in c.threads || c.threads[thread.id].user != me)
    ensures r.Stop? ==> r.status in {BAD_REQUEST, NOT_FOUND}
  {
    if thread.Malformed? then Stop(BAD_REQUEST)
    else if Blank(userMessage) then Stop(BAD_REQUEST)
    else if thread.id !in c.threads || c.threads[thread.id].user != me then Stop(NOT_FOUND)
    else Pass(thread.id)
  }

  /** The two entries an exchange creates. */
  datatype Exchanged = Exchanged(userMessage: Entry, grockResponse: Entry)

  /** The committed transaction of an exchange: both entries created and
      both ids pushed onto the thread, the user's first. */
  function Exchange(c: Chats, t: ThreadId, userEntry: EntryId, aiEntry: EntryId, e: Exchanged): (r: Chats)
    requires t in c.threads
  {
    var thread := c.threads[t];
    Chats(c.threads[t := thread.(messages := thread.messages + [userEntry, aiEntry])],
          c.entries[userEntry := e.userMessage][aiEntry := e.grockResponse])
  }

  /** The entries of one exchange by `me` in thread `t` at time `now`. */
  function ExchangeOf(me: UserId, t: ThreadId, text: string, answer: string, now: nat): Exchanged {
    Exchanged(Entry(me, text, false, t, now), Entry(me, answer, true, t, now))
  }

  /** The outcome of an exchange once the prompt is known: 500 and nothing
      stored when the AI gives no answer (the transaction aborts), otherwise
      201 and the two entries. */
  function Answer(c: Chats, me: UserId, t: ThreadId, text: string, reply: Option<string>,
                  userEntry: EntryId, aiEntry: EntryId, now: nat): (r: (Chats, Result<Exchanged>))
    requires t in c.threads
    ensures r.1.Ok? <==> Answered(reply)
    ensures r.1.Fail? ==> r == (c, Fail(SERVER_ERROR))
    ensures r.1.Ok? ==>
      && r.1 == Ok(CREATED, ExchangeOf(me, t, text, reply.value, now))
      && r.0 == Exchange(c, t, userEntry, aiEntry, r.1.value)
  {
    if !Answered(reply) then (c, Fail(SERVER_ERROR))
    else
      var e := ExchangeOf(me, t, text, reply.value, now);
      (Exchange(c, t, userEntry, aiEntry, e), Ok(CREATED, e))
  }

  /** `createGrockConversation`: the AI is asked the message alone. */
  function CreateStep(c: Chats, me: UserId, thread: IdParam, userMessage: Option<string>, ai: string -> Option<string>,
                      userEntry: EntryId, aiEntry: EntryId, now: nat): (r: (Chats, Result<Exchanged>))
    ensures r.1.status in {CREATED, BAD_REQUEST, NOT_FOUND, SERVER_ERROR}
    ensures r.1.Ok? <==> OpenChecks(c, me, thread, userMessage).Pass? && Answered(ai(userMessage.value))
    ensures r.1.Fail? ==> r.0 == c
  {
    match OpenChecks(c, me, thread, userMessage)
    case Stop(s) => (c, Fail(s))
    case Pass(t) => Answer(c, me, t, userMessage.value, ai(userMessage.value), userEntry, aiEntry, now)
  }

  /** An exchange appends exactly the two new ids to the thread, the user's
      entry (not from the AI, holding the message as sent) before the AI's
      (holding the answer); no other thread or entry changes. */
  lemma ExchangeAppendsTwo(c: Chats, t: ThreadId, userEntry: EntryId, aiEntry: EntryId, e: Exchanged)
    requires t in c.threads && userEntry != aiEntry
    ensures var after := Exchange(c, t, userEntry, aiEntry, e);
      && after.threads.Keys == c.threads.Keys
      && after.threads[t].messages == c.threads[t].messages + [userEntry, aiEntry]
      && after.threads[t].messages[|after.threads[t].messages| - 2] == userEntry
      && after.threads[t].messages[|after.threads[t].messages| - 1] == aiEntry
      && (forall u :: u in c.threads && u != t ==> after.threads[u] == c.threads[u])
      && after.entries.Keys == c.entries.Keys + {userEntry, aiEntry}
      && after.entries[userEntry] == e.userMessage && after.entries[aiEntry] == e.grockResponse
      && (forall k :: k in c.entries && k != userEntry && k != aiEntry ==> after.entries[k] == c.entries[k])
  {
  }

  /** An exchange under fresh ids keeps the collections linked. */
  lemma ExchangeKeepsLinked(c: Chats, me: UserId, t: ThreadId, text: string, answer: string,
                            userEntry: EntryId, aiEntry: EntryId, now: nat)
    requires Linked(c) && t in c.threads && c.threads[t].user == me
    requires FreshEntries(c, userEntry, aiEntry)
    ensures Linked(Exchange(c, t, userEntry, aiEntry, ExchangeOf(me, t, text, answer, now)))
  {
    var after := Exchange(c, t, userEntry, aiEntry, ExchangeOf(me, t, text, answer, now));
    var old_list := c.threads[t].messages;
    assert userEntry !in old_list && aiEntry !in old_list by {
      forall i | 0 <= i < |old_list| ensures old_list[i] in c.entries {
      }
    }
    AppendTwoDistinct(old_list, userEntry, aiEntry);
    forall u, i | u in after.threads && 0 <= i < |after.threads[u].messages|
      ensures after.threads[u].messages[i] in after.entries
      ensures after.entries[after.threads[u].messages[i]].messageRef == u
    {
      if u == t && i >= |old_list| {
        assert after.threads[u].messages[i] in {userEntry, aiEntry};
      } else {
        assert after.threads[u].messages[i] == c.threads[u].messages[i];
      }
    }
  }

  /** Two new distinct ids after a list without repeats keep it without
      repeats. */
  lemma AppendTwoDistinct(s: seq<EntryId>, a: EntryId, b: EntryId)
    requires Distinct(s) && a !in s && b !in s && a != b
    ensures Distinct(s + [a, b])
  {
    var r := s + [a, b];
    forall i, j | 0 <= i < j < |r| ensures r[i] != r[j] {
      if j >= |s| && i < |s| {
        assert r[i] in s;
      }
    }
  }

  method CreateConversation(db: Db, me: UserId, thread: IdParam, userMessage: Option<string>, ai: string -> Option<string>,
                            userEntry: EntryId, aiEntry: EntryId, now: nat) returns (r: Result<Exchanged>)
    modifies db`threads, db`entries
    ensures (Chats(db.threads, db.entries), r)
         == CreateStep(Chats(old(db.threads), old(db.entries)), me, thread, userMessage, ai, userEntry, aiEntry, now)
  {
    var checks := OpenChecks(Chats(db.threads, db.entries), me, thread, userMessage);
    if checks.Stop? {
      return Fail(checks.status);
    }
    var t := checks.value;
    var text := userMessage.value;
    var before := db.entries;
    var mine := Entry(me, text, false, t, now);
    db.entries := db.entries[userEntry := mine];
    var reply := ai(text);
    if !Answered(reply) {
      db.entries := before;
      return Fail(SERVER_ERROR);
    }
    var answer := Entry(me, reply.value, true, t, now);
    db.entries := db.entries[aiEntry := answer];
    db.threads := db.threads[t := db.threads[t].(messages := db.threads[t].messages + [userEntry, aiEntry])];
    return Ok(CREATED, Exchanged(mine, answer));
  }

  // ------------------------------------------------------------ history

  function OlderEntry(a: (EntryId, Entry), b: (EntryId, Entry)): bool {
    a.1.createdAt <= b.1.createdAt
  }

  lemma OlderEntryIsPreorder()
    ensures Total(OlderEntry) && Transitive(OlderEntry)
  {
  }

  function SortedOldest(entries: map<EntryId, Entry>, p: ((EntryId, Entry)) -> bool): (r: seq<(EntryId, Entry)>)
    ensures SortedBy(r, OlderEntry)
    ensures forall rec :: rec in r <==> rec.0 in entries && entries[rec.0] == rec.1 && p(rec)
  {
    OlderEntryIsPreorder();
    SortedMatches(entries, p, OlderEntry)
  }

  /** The caller's entries of thread `t`, oldest first: `$match` then
      `$sort: { createdAt: 1 }`. */
  function History(entries: map<EntryId, Entry>, t: ThreadId, me: UserId): (r: seq<(EntryId, Entry)>)
    ensures SortedBy(r, OlderEntry)
    ensures forall i :: 0 <= i < |r| ==> r[i].0 in entries && entries[r[i].0] == r[i].1 && Mine(t, me)(r[i])
  {
    OldestMatches(entries, Mine(t, me))
  }

  function OldestMatches(entries: map<EntryId, Entry>, p: ((EntryId, Entry)) -> bool): (r: seq<(EntryId, Entry)>)
    ensures SortedBy(r, OlderEntry)
    ensures forall i :: 0 <= i < |r| ==> r[i].0 in entries && entries[r[i].0] == r[i].1 && p(r[i])
  {
    var recs := SortedOldest(entries, p);
    MatchedAt(entries, p, recs);
    recs
  }

  /** The history holds as many entries as the filter matches. */
  lemma HistoryCount(entries: map<EntryId, Entry>, t: ThreadId, me: UserId)
    ensures |History(entries, t, me)| == Count(Records(entries), Mine(t, me))
  {
    OlderEntryIsPreorder();
    assert History(entries, t, me) == SortedMatches(entries, Mine(t, me), OlderEntry);
  }

  /** Every entry of the caller in the thread is in its history. */
  lemma HistoryComplete(entries: map<EntryId, Entry>, t: ThreadId, me: UserId, k: EntryId)
    requires k in entries && entries[k].messageRef == t && entries[k].user == me
    ensures (k, entries[k]) in History(entries, t, me)
  {
    assert History(entries, t, me) == SortedOldest(entries, Mine(t, me));
  }

  /** In linked collections the owner's history of a thread holds as many
      entries as the thread lists. */
  lemma HistoryIsThread(c: Chats, t: ThreadId)
    requires Linked(c) && t in c.threads
    ensures |History(c.entries, t, c.threads[t].user)| == |c.threads[t].messages|
  {
    var me := c.threads[t].user;
    HistoryCount(c.entries, t, me);
    MessagesCountIsEntries(c, t);
    OwnerWritesThread(c, t);
    OwnerCount(Records(c.entries), t, me);
  }

  /** Every entry of a thread is its owner's. */
  lemma OwnerWritesThread(c: Chats, t: ThreadId)
    requires Linked(c) && t in c.threads
    ensures forall i :: 0 <= i < |Records(c.entries)| && InThread(t)(Records(c.entries)[i]) ==>
      Records(c.entries)[i].1.user == c.threads[t].user
  {
    var recs := Records(c.entries);
    forall i | 0 <= i < |recs| && InThread(t)(recs[i]) ensures recs[i].1.user == c.threads[t].user {
      assert c.entries[recs[i].0] == recs[i].1;
    }
  }

  /** When every entry of the thread is `me`'s, the caller's entries of the
      thread are all its entries. */
  lemma OwnerCount(recs: seq<(EntryId, Entry)>, t: ThreadId, me: UserId)
    requires forall i :: 0 <= i < |recs| && InThread(t)(recs[i]) ==> recs[i].1.user == me
    ensures Count(recs, Mine(t, me)) == Count(recs, InThread(t))
  {
    CountPointwise(recs, recs, Mine(t, me), InThread(t));
  }

  /** `getConversationsByMessageId`: 400, 404 unless the caller owns the
      thread, otherwise the caller's entries of the thread oldest first. */
  function GetHistoryStep(c: Chats, me: UserId, thread: IdParam): (r: Result<seq<(EntryId, Entry)>>)
    ensures r.status == BAD_REQUEST <==> thread.Malformed?
    ensures r.Ok? <==> thread.ObjectId? && thread.id in c.threads && c.threads[thread.id].user == me
    ensures r.Ok? ==> r == Ok(OK, History(c.entries, thread.id, me))
    ensures r.Fail? ==> r.status in {BAD_REQUEST, NOT_FOUND}
  {
    match thread
    case Malformed => Fail(BAD_REQUEST)
    case ObjectId(t) =>
      if t !in c.threads || c.threads[t].user != me then Fail(NOT_FOUND) else Ok(OK, History(c.entries, t, me))
  }

  // ------------------------------------------------------------- prompt

  const CONTEXT_SIZE: nat := 10

  /** `.sort({ createdAt: 1 }).limit(10)`: the ten oldest entries. */
  function ContextWindow(history: seq<(EntryId, Entry)>): (r: seq<(EntryId, Entry)>)
    ensures |r| == if |history| < CONTEXT_SIZE then |history| else CONTEXT_SIZE
    ensures r == history[..|r|]
  {
    Take(history, CONTEXT_SIZE)
  }

  /** `${isGrock ? 'AI' : 'User'}: ${message}`. */
  function Render(e: Entry): (r: string)
    ensures '\n' in r <==> '\n' in e.message
  {
    var speaker := if e.isGrock then "AI" else "User";
    assert forall i :: 0 <= i < |speaker + ": "| ==> (speaker + ": ")[i] != '\n';
    speaker + ": " + e.message
  }

  function Lines(window: seq<(EntryId, Entry)>): (r: seq<string>)
    ensures |r| == |window|
    ensures forall i :: 0 <= i < |r| ==> r[i] == Render(window[i].1)
  {
    seq(|window|, i requires 0 <= i < |window| => Render(window[i].1))
  }

  /** The context joined by newlines, then the new message and the cue. */
  function Prompt(window: seq<(EntryId, Entry)>, text: string): string {
    Join(Lines(window), "\n") + "\nUser: " + text + "\nAI:"
  }

  /** Read line by line, the prompt is one line per earlier entry, oldest
      first (a single empty line when there is none), then the user's line
      and the cue, as long as no message holds a line break. */
  lemma PromptLines(window: seq<(EntryId, Entry)>, text: string)
    requires forall i :: 0 <= i < |window| ==> '\n' !in window[i].1.message
    requires '\n' !in text
    ensures Split(Prompt(window, text), '\n') == (if window == [] then [""] else Lines(window)) + ["User: " + text, "AI:"]
  {
    var head := if window == [] then [""] else Lines(window);
    var tail := ["User: " + text, "AI:"];
    LinesFree(window);
    var j := Join(Lines(window), "\n");
    assert Join(head, "\n") == j;
    JoinAppend(head, tail, "\n");
    CueLines(text);
    PromptShape(j, text);
    PartsFree(head, tail, '\n');
    JoinSplit(head + tail, '\n');
  }

  lemma LinesFree(window: seq<(EntryId, Entry)>)
    requires forall i :: 0 <= i < |window| ==> '\n' !in window[i].1.message
    ensures forall i :: 0 <= i < |Lines(window)| ==> '\n' !in Lines(window)[i]
  {
  }

  /** The prompt's text is the context, a line break, and the two lines
      joined by a line break. */
  lemma PromptShape(j: string, text: string)
    ensures j + "\nUser: " + text + "\nAI:" == j + "\n" + ("User: " + text + "\n" + "AI:")
  {
    assert "\nUser: " == "\n" + "User: ";
    assert "\nAI:" == "\n" + "AI:";
  }

  /** Two lists of lines without `c` give one list without `c`. */
  lemma PartsFree(a: seq<string>, b: seq<string>, c: char)
    requires forall i :: 0 <= i < |a| ==> c !in a[i]
    requires forall i :: 0 <= i < |b| ==> c !in b[i]
    ensures forall i :: 0 <= i < |a + b| ==> c !in (a + b)[i]
  {
    forall i | 0 <= i < |a + b| ensures c !in (a + b)[i] {
      if i >= |a| {
        assert (a + b)[i] == b[i - |a|];
      }
    }
  }

  /** The two lines after the context hold no line break. */
  lemma CueLines(text: string)
    requires '\n' !in text
    ensures Join(["User: " + text, "AI:"], "\n") == "User: " + text + "\n" + "AI:"
    ensures '\n' !in "User: " + text && '\n' !in "AI:"
  {
    assert forall i :: 0 <= i < |"User: "| ==> "User: "[i] != '\n';
  }

  /** `continueConversation`: the checks, then the AI is asked the prompt
      built from the context window of the caller's history. */
  function ContinueStep(c: Chats, me: UserId, thread: IdParam, userMessage: Option<string>, ai: string -> Option<string>,
                        userEntry: EntryId, aiEntry: EntryId, now: nat): (r: (Chats, Result<Exchanged>))
    ensures r.1.status in {CREATED, BAD_REQUEST, NOT_FOUND, SERVER_ERROR}
    ensures r.1.Ok? <==>
      && OpenChecks(c, me, thread, userMessage).Pass?
      && Answered(ai(Prompt(ContextWindow(History(c.entries, thread.id, me)), userMessage.value)))
    ensures r.1.Fail? ==> r.0 == c
  {
    match OpenChecks(c, me, thread, userMessage)
    case Stop(s) => (c, Fail(s))
    case Pass(t) =>
      var prompt := Prompt(ContextWindow(History(c.entries, t, me)), userMessage.value);
      Answer(c, me, t, userMessage.value, ai(prompt), userEntry, aiEntry, now)
  }

  method ContinueConversation(db: Db, me: UserId, thread: IdParam, userMessage: Option<string>, ai: string -> Option<string>,
                              userEntry: EntryId, aiEntry: EntryId, now: nat) returns (r: Result<Exchanged>)
    modifies db`threads, db`entries
    ensures (Chats(db.threads, db.entries), r)
         == ContinueStep(Chats(old(db.threads), old(db.entries)), me, thread, userMessage, ai, userEntry, aiEntry, now)
  {
    var checks := OpenChecks(Chats(db.threads, db.entries), me, thread, userMessage);
    if checks.Stop? {
      return Fail(checks.status);
    }
    var t := checks.value;
    var text := userMessage.value;
    var previous := ContextWindow(History(db.entries, t, me));
    var before := db.entries;
    var mine := Entry(me, text, false, t, now);
    db.entries := db.entries[userEntry := mine];
    var reply := ai(Prompt(previous, text));
    if !Answered(reply) {
      db.entries := before;
      return Fail(SERVER_ERROR);
    }
    var answer := Entry(me, reply.value, true, t, now);
    db.entries := db.entries[aiEntry := answer];
    db.threads := db.threads[t := db.threads[t].(messages := db.threads[t].messages + [userEntry, aiEntry])];
    return Ok(CREATED, Exchanged(mine, answer));
  }

  /** As written, once the history holds ten entries the context never
      changes again: whatever is added later is not shown to the AI. */
  lemma FrozenContext(history: seq<(EntryId, Entry)>, later: seq<(EntryId, Entry)>)
    requires |history| >= CONTEXT_SIZE
    ensures ContextWindow(history + later) == ContextWindow(history)
  {
    assert (history + later)[..CONTEXT_SIZE] == history[..CONTEXT_SIZE];
  }

  /** As written, with more than ten entries the newest one is missing from
      the context whenever it is newer than the tenth. */
  lemma StaleContext(history: seq<(EntryId, Entry)>)
    requires SortedBy(history, OlderEntry)
    requires |history| > CONTEXT_SIZE
    requires history[CONTEXT_SIZE - 1].1.createdAt < history[|history| - 1].1.createdAt
    ensures history[|history| - 1] !in ContextWindow(history)
  {
    var w := ContextWindow(history);
    forall i | 0 <= i < |w| ensures w[i].1.createdAt < history[|history| - 1].1.createdAt {
      assert w[i] == history[i];
      if i < CONTEXT_SIZE - 1 {
        assert OlderEntry(history[i], history[CONTEXT_SIZE - 1]);
      }
    }
  }

  /** The last ten entries, oldest first, which the code's comment promises. */
  function RecentWindow(history: seq<(EntryId, Entry)>): (r: seq<(EntryId, Entry)>)
    ensures |r| == if |history| < CONTEXT_SIZE then |history| else CONTEXT_SIZE
    ensures r == history[|history| - |r|..]
  {
    if |history| < CONTEXT_SIZE then history else history[|history| - CONTEXT_SIZE..]
  }

  /** The recent window holds the newest entry, keeps the order, and leaves
      out only entries no newer than any it shows. */
  lemma RecentWindowKeepsNewest(history: seq<(EntryId, Entry)>)
    requires SortedBy(history, OlderEntry)
    ensures var r := RecentWindow(history);
      && (|history| > 0 ==> history[|history| - 1] in r)
      && SortedBy(r, OlderEntry)
      && forall i, j :: 0 <= i < |history| - |r| && 0 <= j < |r| ==> history[i].1.createdAt <= r[j].1.createdAt
  {
    var r := RecentWindow(history);
    if |history| > 0 {
      assert r[|r| - 1] == history[|history| - 1];
    }
    SuffixOrdered(history, |history| - |r|);
  }

  /** A suffix of a history sorted oldest first is sorted, and every entry
      before it is no newer than any entry in it. */
  lemma SuffixOrdered(history: seq<(EntryId, Entry)>, skip: nat)
    requires SortedBy(history, OlderEntry) && skip <= |history|
    ensures SortedBy(history[skip..], OlderEntry)
    ensures forall i, j :: 0 <= i < skip && 0 <= j < |history| - skip ==>
      history[i].1.createdAt <= history[skip..][j].1.createdAt
  {
    var r := history[skip..];
    forall i, j | 0 <= i < j < |r| ensures OlderEntry(r[i], r[j]) {
      assert r[i] == history[skip + i] && r[j] == history[skip + j];
    }
    forall i, j | 0 <= i < skip && 0 <= j < |r| ensures history[i].1.createdAt <= r[j].1.createdAt {
      assert r[j] == history[skip + j];
      assert OlderEntry(history[i], history[skip + j]);
    }
  }

  /** Up to ten entries the two windows agree. */
  lemma WindowsAgreeWhenShort(history: seq<(EntryId, Entry)>)
    requires |history| <= CONTEXT_SIZE
    ensures RecentWindow(history) == ContextWindow(history)
  {
  }

  // --------------------------------------------------------- one entry

  /** `getConversationById`: 400, 404 unless the entry is the caller's. */
  function GetEntryStep(c: Chats, me: UserId, entry: IdParam): (r: Result<Entry>)
    ensures r.status == BAD_REQUEST <==> entry.Malformed?
    ensures r.Ok? <==> entry.ObjectId? && entry.id in c.entries && c.entries[entry.id].user == me
    ensures r.Ok? ==> r == Ok(OK, c.entries[entry.id])
    ensures r.Fail? ==> r.status in {BAD_REQUEST, NOT_FOUND}
  {
    match entry
    case Malformed => Fail(BAD_REQUEST)
    case ObjectId(k) => if k in c.entries && c.entries[k].user == me then Ok(OK, c.entries[k]) else Fail(NOT_FOUND)
  }

  /** `updateConversation`: 400, 400 for a blank message, 404 unless the
      entry is the caller's own message (not the AI's); otherwise the trimmed
      message replaces its text. */
  function UpdateStep(c: Chats, me: UserId, entry: IdParam, message: Option<string>): (r: (Chats, Result<Entry>))
    ensures r.1.status in {OK, BAD_REQUEST, NOT_FOUND}
    ensures r.1.status == BAD_REQUEST <==> entry.Malformed? || Blank(message)
    ensures r.1.Ok? <==>
      && entry.ObjectId? && !Blank(message)
      && entry.id in c.entries && c.entries[entry.id].user == me && !c.entries[entry.id].isGrock
    ensures r.1.Fail? ==> r.0 == c
    ensures r.1.Ok? ==>
      && r.0.threads == c.threads
      && r.0.entries == c.entries[entry.id := r.1.value]
      && r.1.value == c.entries[entry.id].(message := Trim(message.value))
  {
    if entry.Malformed? || Blank(message) then (c, Fail(BAD_REQUEST))
    else if entry.id !in c.entries || c.entries[entry.id].user != me || c.entries[entry.id].isGrock then (c, Fail(NOT_FOUND))
    else
      var updated := c.entries[entry.id].(message := Trim(message.value));
      (Chats(c.threads, c.entries[entry.id := updated]), Ok(OK, updated))
  }

  /** An update never touches the AI's entries or anyone else's, stores a
      non-empty text, and keeps the collections linked. */
  lemma UpdateOnlyOwnMessage(c: Chats, me: UserId, entry: IdParam, message: Option<string>)
    requires Linked(c)
    ensures var (after, r) := UpdateStep(c, me, entry, message);
      && after.entries.Keys == c.entries.Keys
      && (forall k :: k in c.entries && (c.entries[k].isGrock || c.entries[k].user != me) ==> after.entries[k] == c.entries[k])
      && (r.Ok? ==> r.value.message != "")
      && Linked(after)
  {
    var (after, r) := UpdateStep(c, me, entry, message);
    if r.Ok? {
      TrimEmptyIff(message.value);
      forall t, i | t in after.threads && 0 <= i < |after.threads[t].messages|
        ensures after.threads[t].messages[i] in after.entries
        ensures after.entries[after.threads[t].messages[i]].messageRef == t
      {
      }
    }
  }

  method UpdateEntry(db: Db, me: UserId, entry: IdParam, message: Option<string>) returns (r: Result<Entry>)
    modifies db`entries
    ensures (Chats(db.threads, db.entries), r) == UpdateStep(Chats(db.threads, old(db.entries)), me, entry, message)
  {
    if entry.Malformed? || Blank(message) {
      return Fail(BAD_REQUEST);
    }
    var k := entry.id;
    if k !in db.entries || db.entries[k].user != me || db.entries[k].isGrock {
      return Fail(NOT_FOUND);
    }
    var updated := db.entries[k].(message := Trim(message.value));
    db.entries := db.entries[k := updated];
    return Ok(OK, updated);
  }

  /** `$pull`: every occurrence of `x` removed. */
  function Pull(s: seq<EntryId>, x: EntryId): (r: seq<EntryId>)
    ensures forall y :: y in r <==> y in s && y != x
    ensures multiset(r) <= multiset(s)
  {
    Filter(s, (y: EntryId) => y != x)
  }

  /** `deleteConversation`: 400, 404 unless the entry is the caller's;
      otherwise the entry goes and its id is pulled from its thread. */
  function DeleteEntryStep(c: Chats, me: UserId, entry: IdParam): (r: (Chats, nat))
    ensures r.1 in {OK, BAD_REQUEST, NOT_FOUND}
    ensures r.1 == BAD_REQUEST <==> entry.Malformed?
    ensures r.1 == OK <==> entry.ObjectId? && entry.id in c.entries && c.entries[entry.id].user == me
    ensures r.1 != OK ==> r.0 == c
    ensures r.1 == OK ==>
      && r.0.entries == c.entries - {entry.id}
      && r.0.threads.Keys == c.threads.Keys
      && forall t :: t in c.threads ==>
           r.0.threads[t] == if t == c.entries[entry.id].messageRef
                             then c.threads[t].(messages := Pull(c.threads[t].messages, entry.id))
                             else c.threads[t]
  {
    match entry
    case Malformed => (c, BAD_REQUEST)
    case ObjectId(k) =>
      if k !in c.entries || c.entries[k].user != me then (c, NOT_FOUND)
      else
        var t := c.entries[k].messageRef;
        var threads := if t in c.threads
                       then c.threads[t := c.threads[t].(messages := Pull(c.threads[t].messages, k))]
                       else c.threads;
        (Chats(threads, c.entries - {k}), OK)
  }

  /** Deleting an entry leaves no thread listing it and keeps the
      collections linked. */
  lemma DeleteEntryKeepsLinked(c: Chats, me: UserId, entry: IdParam)
    requires Linked(c)
    ensures var (after, status) := DeleteEntryStep(c, me, entry);
      && (status == OK ==> forall t :: t in after.threads ==> entry.id !in after.threads[t].messages)
      && Linked(after)
  {
    var (after, status) := DeleteEntryStep(c, me, entry);
    if status == OK {
      var k := entry.id;
      forall t | t in after.threads ensures k !in after.threads[t].messages {
        if t != c.entries[k].messageRef {
          forall i | 0 <= i < |c.threads[t].messages| ensures c.threads[t].messages[i] != k {
          }
        }
      }
      forall t | t in after.threads ensures Distinct(after.threads[t].messages) {
        FewerKeepsDistinct(c.threads[t].messages, after.threads[t].messages);
      }
      forall t, i | t in after.threads && 0 <= i < |after.threads[t].messages|
        ensures after.threads[t].messages[i] in after.entries
        ensures after.entries[after.threads[t].messages[i]].messageRef == t
      {
        var e := after.threads[t].messages[i];
        assert e in after.threads[t].messages;
        assert e in c.threads[t].messages;
        var j :| 0 <= j < |c.threads[t].messages| && c.threads[t].messages[j] == e;
      }
    }
  }

  method DeleteEntry(db: Db, me: UserId, entry: IdParam) returns (status: nat)
    modifies db`threads, db`entries
    ensures (Chats(db.threads, db.entries), status) == DeleteEntryStep(Chats(old(db.threads), old(db.entries)), me, entry)
  {
    if entry.Malformed? {
      return BAD_REQUEST;
    }
    var k := entry.id;
    if k !in db.entries || db.entries[k].user != me {
      return NOT_FOUND;
    }
    var t := db.entries[k].messageRef;
    db.entries := db.entries - {k};
    if t in db.threads {
      db.threads := db.threads[t := db.threads[t].(messages := Pull(db.threads[t].messages, k))];
    }
    return OK;
  }

  // ---------------------------------------------------------- clear all

  /** The entries left once the caller's entries of thread `t` are gone. */
  function Cleared(entries: map<EntryId, Entry>, t: ThreadId, me: UserId): (r: map<EntryId, Entry>)
    ensures forall k :: k in r <==> k in entries && !Mine(t, me)((k, entries[k]))
    ensures forall k :: k in r ==> r[k] == entries[k]
  {
    map k | k in entries && !Mine(t, me)((k, entries[k])) :: entries[k]
  }

  /** `deleteAllConversationsByMessageId`: 400, 404 unless the caller owns
      the thread; otherwise the caller's entries of the thread go, the list
      is emptied and the number deleted is reported. */
  function DeleteAllStep(c: Chats, me: UserId, thread: IdParam): (r: (Chats, Result<nat>))
    ensures r.1.status in {OK, BAD_REQUEST, NOT_FOUND}
    ensures r.1.status == BAD_REQUEST <==> thread.Malformed?
    ensures r.1.Ok? <==> thread.ObjectId? && thread.id in c.threads && c.threads[thread.id].user == me
    ensures r.1.Fail? ==> r.0 == c
    ensures r.1.Ok? ==>
      && r.1.value == Count(Records(c.entries), Mine(thread.id, me))
      && r.0.threads == c.threads[thread.id := c.threads[thread.id].(messages := [])]
      && forall k :: k in r.0.entries <==> k in c.entries && !Mine(thread.id, me)((k, c.entries[k]))
  {
    match thread
    case Malformed => (c, Fail(BAD_REQUEST))
    case ObjectId(t) =>
      if t !in c.threads || c.threads[t].user != me then (c, Fail(NOT_FOUND))
      else
        (Chats(c.threads[t := c.threads[t].(messages := [])], Cleared(c.entries, t, me)),
         Ok(OK, Count(Records(c.entries), Mine(t, me))))
  }

  /** In linked collections clearing a thread deletes every entry it lists
      and reports exactly that many. */
  lemma DeleteAllClearsThread(c: Chats, me: UserId, t: ThreadId)
    requires Linked(c)
    ensures var (after, r) := DeleteAllStep(c, me, ObjectId(t));
      && (r.Ok? ==> r.value == |c.threads[t].messages|)
      && (r.Ok? ==> forall k :: k in after.entries ==> after.entries[k].messageRef != t)
  {
    var (after, r) := DeleteAllStep(c, me, ObjectId(t));
    if r.Ok? {
      HistoryIsThread(c, t);
      HistoryCount(c.entries, t, me);
    }
  }

  /** Clearing a thread keeps the collections linked. */
  lemma DeleteAllKeepsLinked(c: Chats, me: UserId, t: ThreadId)
    requires Linked(c)
    ensures Linked(DeleteAllStep(c, me, ObjectId(t)).0)
  {
    var (after, r) := DeleteAllStep(c, me, ObjectId(t));
    if r.Ok? {
      ClearKeepsLinked(c, t, me, after.entries);
    }
  }

  lemma ClearKeepsLinked(c: Chats, t: ThreadId, me: UserId, kept: map<EntryId, Entry>)
    requires Linked(c) && t in c.threads && c.threads[t].user == me
    requires forall k :: k in kept <==> k in c.entries && !Mine(t, me)((k, c.entries[k]))
    requires forall k :: k in kept ==> kept[k] == c.entries[k]
    ensures Linked(Chats(c.threads[t := c.threads[t].(messages := [])], kept))
  {
    var after := Chats(c.threads[t := c.threads[t].(messages := [])], kept);
    forall u, i | u in after.threads && 0 <= i < |after.threads[u].messages|
      ensures after.threads[u].messages[i] in after.entries
      ensures after.entries[after.threads[u].messages[i]].messageRef == u
    {
      assert after.threads[u].messages[i] == c.threads[u].messages[i];
    }
    forall e | e in kept && kept[e].messageRef in after.threads
      ensures e in after.threads[kept[e].messageRef].messages
      ensures kept[e].user == after.threads[kept[e].messageRef].user
    {
      assert kept[e].messageRef != t;
    }
  }

  method DeleteAll(db: Db, me: UserId, thread: IdParam) returns (r: Result<nat>)
    modifies db`threads, db`entries
    ensures (Chats(db.threads, db.entries), r) == DeleteAllStep(Chats(old(db.threads), old(db.entries)), me, thread)
  {
    if thread.Malformed? {
      return Fail(BAD_REQUEST);
    }
    var t := thread.id;
    if t !in db.threads || db.threads[t].user != me {
      return Fail(NOT_FOUND);
    }
    var deleted := Count(Records(db.entries), Mine(t, me));
    db.entries := Cleared(db.entries, t, me);
    db.threads := db.threads[t := db.threads[t].(messages := [])];
    return Ok(OK, deleted);
  }

  // -------------------------------------------------------------- stats

  const USER_MESSAGES: string := "user_messages"
  const AI_MESSAGES: string := "ai_messages"

  /** One `$group` output of `getConversationStats`. */
  datatype TypeStat = TypeStat(kind: string, count: nat, totalMessagesLength: nat)

  function Authored(me: UserId): ((EntryId, Entry)) -> bool {
    (rec: (EntryId, Entry)) => rec.1.user == me
  }

  function OfType(me: UserId, isGrock: bool): ((EntryId, Entry)) -> bool {
    (rec: (EntryId, Entry)) => rec.1.user == me && rec.1.isGrock == isGrock
  }

  /** `$sum: { $strLenCP: "$message" }` over the records satisfying `p`. */
  function LengthSum(recs: seq<(EntryId, Entry)>, p: ((EntryId, Entry)) -> bool): (n: nat)
    ensures Count(recs, p) == 0 ==> n == 0
  {
    if recs == [] then 0
    else (if p(recs[0]) then |recs[0].1.message| else 0) + LengthSum(recs[1..], p)
  }

  /** The group of one type, present only when it has an entry. */
  function GroupOf(recs: seq<(EntryId, Entry)>, me: UserId, isGrock: bool): (r: seq<TypeStat>)
    ensures |r| <= 1
    ensures r == [] <==> Count(recs, OfType(me, isGrock)) == 0
    ensures forall i :: 0 <= i < |r| ==> r[i].count == Count(recs, OfType(me, isGrock))
  {
    var n := Count(recs, OfType(me, isGrock));
    if n == 0 then []
    else [TypeStat(if isGrock then AI_MESSAGES else USER_MESSAGES, n, LengthSum(recs, OfType(me, isGrock)))]
  }

  /** The groups of the caller's entries, the user's first. */
  function Stats(entries: map<EntryId, Entry>, me: UserId): seq<TypeStat> {
    var recs := Records(entries);
    GroupOf(recs, me, false) + GroupOf(recs, me, true)
  }

  /** `stats.reduce((sum, stat) => sum + stat.count, 0)`. */
  function TotalOf(stats: seq<TypeStat>): nat {
    if stats == [] then 0 else stats[0].count + TotalOf(stats[1..])
  }

  lemma {:induction false} TotalOfAppend(a: seq<TypeStat>, b: seq<TypeStat>)
    ensures TotalOf(a + b) == TotalOf(a) + TotalOf(b)
  {
    if a == [] {
      assert a + b == b;
    } else {
      TotalOfAppend(a[1..], b);
      assert (a + b)[1..] == a[1..] + b;
    }
  }

  /** `total_conversations` is the number of the caller's entries. */
  lemma StatsTotal(entries: map<EntryId, Entry>, me: UserId)
    ensures TotalOf(Stats(entries, me)) == Count(Records(entries), Authored(me))
  {
    GroupsTotal(Records(entries), me);
  }

  lemma GroupsTotal(recs: seq<(EntryId, Entry)>, me: UserId)
    ensures TotalOf(GroupOf(recs, me, false) + GroupOf(recs, me, true)) == Count(recs, Authored(me))
  {
    TotalOfAppend(GroupOf(recs, me, false), GroupOf(recs, me, true));
    CountSplit(recs, Authored(me), OfType(me, false), OfType(me, true));
  }
}
