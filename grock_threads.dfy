/** The AI chat threads of backEnd/src/controllers/grockMessage.controller.js:
    a user opens named threads (GrockMessage documents), each listing the ids
    of its entries (GrockConversation documents); deleting a thread deletes
    the entries it lists. The link between the two collections is the
    invariant `Linked`, which every handler of the chat keeps. */
module GrockThreads {
  import opened Wrappers
  import opened TweetModel
  import opened Store
  import opened Text
  import opened Collections

  /** The two collections the AI chat handlers touch. */
  datatype Chats = Chats(threads: map<ThreadId, Thread>, entries: map<EntryId, Entry>)

  /** Every id a thread lists names an entry that refers back to the thread. */
  predicate ListedExist(c: Chats) {
    forall t, i :: t in c.threads && 0 <= i < |c.threads[t].messages| ==>
      c.threads[t].messages[i] in c.entries && c.entries[c.threads[t].messages[i]].messageRef == t
  }

  /** No thread lists an id twice. */
  ghost predicate ListsDistinct(c: Chats) {
    forall t :: t in c.threads ==> Distinct(c.threads[t].messages)
  }

  /** Every entry of an existing thread is listed by it and belongs to the
      thread's owner. */
  predicate EntriesListed(c: Chats) {
    forall e :: e in c.entries && c.entries[e].messageRef in c.threads ==>
      && e in c.threads[c.entries[e].messageRef].messages
      && c.entries[e].user == c.threads[c.entries[e].messageRef].user
  }

  /** The thread lists and the entries agree. */
  ghost predicate Linked(c: Chats) {
    ListedExist(c) && ListsDistinct(c) && EntriesListed(c)
  }

  /** The entries of thread `t`. */
  function InThread(t: ThreadId): ((EntryId, Entry)) -> bool {
    (rec: (EntryId, Entry)) => rec.1.messageRef == t
  }

  /** An id no document uses yet, as a new ObjectId is: no thread has it
      and no entry refers to it. */
  predicate FreshThread(c: Chats, id: ThreadId) {
    id !in c.threads && forall e :: e in c.entries ==> c.entries[e].messageRef != id
  }

  // ------------------------------------------------------------- create

  const THREAD_PREFIX: string := "GrockMessage_"

  /** `GrockMessage_${Date.now()}`. */
  function ThreadName(now: nat): (r: string)
    ensures StartsWith(r, THREAD_PREFIX)
    ensures |r| > |THREAD_PREFIX|
    ensures forall i :: |THREAD_PREFIX| <= i < |r| ==> IsDigit(r[i])
  {
    var digits := Decimal(now);
    assert (THREAD_PREFIX + digits)[..|THREAD_PREFIX|] == THREAD_PREFIX;
    THREAD_PREFIX + digits
  }

  /** `createGrockMessage`: a new empty thread owned by the caller, named
      after the clock. */
  function CreateThreadStep(c: Chats, me: UserId, id: ThreadId, now: nat): (r: (Chats, Result<Thread>))
    ensures r.1 == Ok(CREATED, Thread(ThreadName(now), me, []))
    ensures r.0 == Chats(c.threads[id := r.1.value], c.entries)
  {
    var thread := Thread(ThreadName(now), me, []);
    (Chats(c.threads[id := thread], c.entries), Ok(CREATED, thread))
  }

  /** A new thread under a fresh id keeps the collections linked. */
  lemma CreateThreadKeepsLinked(c: Chats, me: UserId, id: ThreadId, now: nat)
    requires Linked(c) && FreshThread(c, id)
    ensures Linked(CreateThreadStep(c, me, id, now).0)
  {
    var after := CreateThreadStep(c, me, id, now).0;
    assert Distinct(after.threads[id].messages);
    forall t, i | t in after.threads && 0 <= i < |after.threads[t].messages|
      ensures after.threads[t].messages[i] in after.entries
      ensures after.entries[after.threads[t].messages[i]].messageRef == t
    {
      assert t != id;
    }
  }

  method CreateThread(db: Db, me: UserId, id: ThreadId, now: nat) returns (r: Result<Thread>)
    modifies db`threads
    ensures (Chats(db.threads, db.entries), r) == CreateThreadStep(Chats(old(db.threads), db.entries), me, id, now)
  {
    var thread := Thread(ThreadName(now), me, []);
    db.threads := db.threads[id := thread];
    return Ok(CREATED, thread);
  }

  // --------------------------------------------------------------- list

  /** One row of `getUserGrockMessages`: `$size: "$messages"` as the count. */
  datatype ThreadRow = ThreadRow(id: ThreadId, name: string, messagesCount: nat)

  function OwnedBy(me: UserId): ((ThreadId, Thread)) -> bool {
    (rec: (ThreadId, Thread)) => rec.1.user == me
  }

  function RowOf(rec: (ThreadId, Thread)): ThreadRow {
    ThreadRow(rec.0, rec.1.name, |rec.1.messages|)
  }

  function Rows(recs: seq<(ThreadId, Thread)>): (r: seq<ThreadRow>)
    ensures |r| == |recs|
    ensures forall i :: 0 <= i < |r| ==> r[i] == RowOf(recs[i])
  {
    seq(|recs|, i requires 0 <= i < |recs| => RowOf(recs[i]))
  }

  /** `getUserGrockMessages`: a row for every thread of the caller, whose
      `messagesCount` is the length of the thread's list. */
  function UserThreads(threads: map<ThreadId, Thread>, me: UserId): (r: seq<ThreadRow>)
    ensures |r| == Count(Records(threads), OwnedBy(me))
    ensures forall i :: 0 <= i < |r| ==>
      r[i].id in threads && threads[r[i].id].user == me && r[i] == RowOf((r[i].id, threads[r[i].id]))
  {
    var mine := Filter(Records(threads), OwnedBy(me));
    CountIsFilterLength(Records(threads), OwnedBy(me));
    var rows := Rows(mine);
    forall i | 0 <= i < |rows|
      ensures rows[i].id in threads && threads[rows[i].id].user == me && rows[i] == RowOf((rows[i].id, threads[rows[i].id]))
    {
      assert mine[i] in mine;
    }
    rows
  }

  /** Every thread of the caller has its row. */
  lemma UserThreadsComplete(threads: map<ThreadId, Thread>, me: UserId, t: ThreadId)
    requires t in threads && threads[t].user == me
    ensures ThreadRow(t, threads[t].name, |threads[t].messages|) in UserThreads(threads, me)
  {
    var mine := Filter(Records(threads), OwnedBy(me));
    var rec := (t, threads[t]);
    assert rec in mine;
    var i :| 0 <= i < |mine| && mine[i] == rec;
    assert UserThreads(threads, me) == Rows(mine);
    assert Rows(mine)[i] == RowOf(rec);
  }

  /** In linked collections a thread's `messagesCount` is the number of its
      entries. */
  lemma MessagesCountIsEntries(c: Chats, t: ThreadId)
    requires Linked(c) && t in c.threads
    ensures |c.threads[t].messages| == Count(Records(c.entries), InThread(t))
  {
    var listed := c.threads[t].messages;
    DistinctCard(listed);
    forall e ensures e in (set x | x in listed) <==> e in c.entries && InThread(t)((e, c.entries[e])) {
      if e in listed {
        var i :| 0 <= i < |listed| && listed[i] == e;
      }
    }
    CountIsCard(c.entries, InThread(t), set x | x in listed);
  }

  // ------------------------------------------------------------- delete

  /** `deleteGrockMessage`: 400 for an id that is not an ObjectId, 404 unless
      the caller owns the thread; otherwise the thread goes and so does every
      entry it lists. */
  function DeleteThreadStep(c: Chats, me: UserId, thread: IdParam): (r: (Chats, nat))
    ensures r.1 in {OK, BAD_REQUEST, NOT_FOUND}
    ensures r.1 == BAD_REQUEST <==> thread.Malformed?
    ensures r.1 == OK <==> thread.ObjectId? && thread.id in c.threads && c.threads[thread.id].user == me
    ensures r.1 != OK ==> r.0 == c
    ensures r.1 == OK ==>
      && r.0.threads == c.threads - {thread.id}
      && forall e :: e in r.0.entries <==> e in c.entries && e !in c.threads[thread.id].messages
  {
    match thread
    case Malformed => (c, BAD_REQUEST)
    case ObjectId(t) =>
      if t !in c.threads || c.threads[t].user != me then (c, NOT_FOUND)
      else (Chats(c.threads - {t}, c.entries - (set e | e in c.threads[t].messages)), OK)
  }

  /** In linked collections deleting a thread removes exactly its entries and
      keeps the collections linked. */
  lemma DeleteThreadCascades(c: Chats, me: UserId, t: ThreadId)
    requires Linked(c)
    ensures var (after, status) := DeleteThreadStep(c, me, ObjectId(t));
      && (status == OK ==> forall e :: e in after.entries <==> e in c.entries && c.entries[e].messageRef != t)
      && Linked(after)
  {
    var (after, status) := DeleteThreadStep(c, me, ObjectId(t));
    if status == OK {
      forall e | e in c.entries ensures e in after.entries <==> c.entries[e].messageRef != t {
        if e in c.threads[t].messages {
          var i :| 0 <= i < |c.threads[t].messages| && c.threads[t].messages[i] == e;
        }
      }
      forall u, i | u in after.threads && 0 <= i < |after.threads[u].messages|
        ensures after.threads[u].messages[i] in after.entries
      {
        var e := after.threads[u].messages[i];
        assert c.entries[e].messageRef == u;
      }
    }
  }

  method DeleteThread(db: Db, me: UserId, thread: IdParam) returns (status: nat)
    modifies db`threads, db`entries
    ensures (Chats(db.threads, db.entries), status) == DeleteThreadStep(Chats(old(db.threads), old(db.entries)), me, thread)
  {
    if thread.Malformed? {
      return BAD_REQUEST;
    }
    var t := thread.id;
    if t !in db.threads || db.threads[t].user != me {
      return NOT_FOUND;
    }
    var listed := db.threads[t].messages;
    db.threads := db.threads - {t};
    db.entries := db.entries - (set e | e in listed);
    return OK;
  }
}
