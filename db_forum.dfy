/** The database-backed content store (the one the application runs with):
    EF Core tables of threads and replies keyed by id. Creating a reply checks
    its thread and increments the thread's count; deleting a reply leaves the
    count as it is; deleting a thread deletes its replies through the
    foreign key's cascade rule. */
module DbForum {
  import opened Common
  import opened Sequences
  import opened Tables
  import opened ForumModel

  /** The ids of the stored replies of thread `tid`. */
  function StoredReplies(replies: map<Guid, ThreadReply>, tid: Guid): set<Guid> {
    set rid | rid in replies && replies[rid].threadId == tid
  }

  /** The reply table after the cascade of deleting thread `tid`. */
  function WithoutRepliesOf(replies: map<Guid, ThreadReply>, tid: Guid): (r: map<Guid, ThreadReply>)
    ensures forall rid :: rid in r <==> rid in replies && replies[rid].threadId != tid
    ensures forall rid :: rid in r ==> r[rid] == replies[rid]
  {
    map rid | rid in replies && replies[rid].threadId != tid :: replies[rid]
  }

  /** After the cascade no reply of `tid` is left, and every other thread
      keeps all of its replies. */
  lemma CascadeRemovesOnlyThatThreadRows(replies: map<Guid, ThreadReply>, tid: Guid, other: Guid)
    ensures StoredReplies(WithoutRepliesOf(replies, tid), tid) == {}
    ensures other != tid ==> StoredReplies(WithoutRepliesOf(replies, tid), other) == StoredReplies(replies, other)
  {
    var w := WithoutRepliesOf(replies, tid);
    assert forall rid :: rid in StoredReplies(w, tid) ==> false;
  }

  /** Storing a new reply adds one to its own thread's replies and nothing
      to any other thread's. */
  lemma StoredAfterAdd(replies: map<Guid, ThreadReply>, reply: ThreadReply, tid: Guid)
    requires reply.id !in replies
    ensures |StoredReplies(replies[reply.id := reply], tid)|
         == |StoredReplies(replies, tid)| + (if reply.threadId == tid then 1 else 0)
  {
    if reply.threadId == tid {
      assert StoredReplies(replies[reply.id := reply], tid) == StoredReplies(replies, tid) + {reply.id};
    } else {
      assert StoredReplies(replies[reply.id := reply], tid) == StoredReplies(replies, tid);
    }
  }

  /** Threads match a category id exactly (`t.CategoryId == categoryId`). */
  function InCategory(categoryId: string): ForumThread -> bool {
    (t: ForumThread) => t.categoryId == categoryId
  }

  /** Every thread. */
  function AnyThread(): ForumThread -> bool {
    (t: ForumThread) => true
  }

  /** Every thread's stored count is at least the number of its stored
      replies: it is incremented on every reply and never decremented. */
  ghost predicate CountsCover(threads: map<Guid, ForumThread>, replies: map<Guid, ThreadReply>) {
    forall tid :: tid in threads ==> threads[tid].replyCount >= |StoredReplies(replies, tid)|
  }

  /** Every stored row's violation fields are set or cleared together. */
  ghost predicate MarksConsistent(threads: map<Guid, ForumThread>, replies: map<Guid, ThreadReply>) {
    (forall tid :: tid in threads ==> threads[tid].violation.Consistent())
    && (forall rid :: rid in replies ==> replies[rid].violation.Consistent())
  }

  /** What the two tables keep between operations: rows keyed by their ids,
      the foreign key from a reply to its thread, counts that cover the
      stored replies and consistent violation fields. */
  ghost predicate TablesInvariant(threads: map<Guid, ForumThread>, replies: map<Guid, ThreadReply>) {
    Keyed(threads, ThreadIdOf)
    && Keyed(replies, ReplyIdOf)
    && (forall rid :: rid in replies ==> replies[rid].threadId in threads)
    && CountsCover(threads, replies)
    && MarksConsistent(threads, replies)
  }

  /** A new thread row with no replies keeps the invariant. */
  lemma AddThreadPreserves(threads: map<Guid, ForumThread>, replies: map<Guid, ThreadReply>, t: ForumThread)
    requires TablesInvariant(threads, replies) && t.id !in threads
    requires t.replyCount >= 0 && t.violation.Consistent()
    ensures TablesInvariant(threads[t.id := t], replies)
  {
    assert StoredReplies(replies, t.id) == {};
  }

  /** Deleting a thread row, and through the cascade its replies, keeps the
      invariant. */
  lemma RemoveThreadPreserves(threads: map<Guid, ForumThread>, replies: map<Guid, ThreadReply>, tid: Guid)
    requires TablesInvariant(threads, replies)
    ensures TablesInvariant(threads - {tid}, WithoutRepliesOf(replies, tid))
  {
    forall other | other in threads && other != tid
      ensures StoredReplies(WithoutRepliesOf(replies, tid), other) == StoredReplies(replies, other)
    {
      CascadeRemovesOnlyThatThreadRows(replies, tid, other);
    }
  }

  /** The thread table after a reply to `tid` at `lastReplyAt` was counted. */
  function ReplyCounted(threads: map<Guid, ForumThread>, tid: Guid, lastReplyAt: Time): (r: map<Guid, ForumThread>)
    requires tid in threads
    ensures r.Keys == threads.Keys
    ensures r[tid].replyCount == threads[tid].replyCount + 1 && r[tid].lastReplyAt == lastReplyAt
    ensures r[tid].(replyCount := threads[tid].replyCount, lastReplyAt := threads[tid].lastReplyAt) == threads[tid]
    ensures forall other :: other in threads && other != tid ==> r[other] == threads[other]
  {
    threads[tid := threads[tid].(lastReplyAt := lastReplyAt, replyCount := threads[tid].replyCount + 1)]
  }

  /** Storing a reply of a stored thread and counting it keeps the
      invariant. */
  lemma AddReplyPreserves(threads: map<Guid, ForumThread>, replies: map<Guid, ThreadReply>,
                          reply: ThreadReply, lastReplyAt: Time)
    requires TablesInvariant(threads, replies)
    requires reply.id !in replies && reply.threadId in threads && reply.violation.Consistent()
    ensures TablesInvariant(ReplyCounted(threads, reply.threadId, lastReplyAt), replies[reply.id := reply])
  {
    var r := ReplyCounted(threads, reply.threadId, lastReplyAt);
    forall other | other in r
      ensures r[other].replyCount >= |StoredReplies(replies[reply.id := reply], other)|
    {
      StoredAfterAdd(replies, reply, other);
    }
  }

  /** Deleting a reply row without touching the counts keeps the invariant. */
  lemma RemoveReplyPreserves(threads: map<Guid, ForumThread>, replies: map<Guid, ThreadReply>, rid: Guid)
    requires TablesInvariant(threads, replies)
    ensures TablesInvariant(threads, replies - {rid})
  {
    forall tid | tid in threads
      ensures |StoredReplies(replies - {rid}, tid)| <= |StoredReplies(replies, tid)|
    {
      SubsetCard(StoredReplies(replies - {rid}, tid), StoredReplies(replies, tid));
    }
  }

  /** Replacing a thread row by one with the same id and count keeps the
      invariant. */
  lemma SetThreadPreserves(threads: map<Guid, ForumThread>, replies: map<Guid, ThreadReply>, t: ForumThread)
    requires TablesInvariant(threads, replies) && t.id in threads
    requires t.replyCount == threads[t.id].replyCount && t.violation.Consistent()
    ensures TablesInvariant(threads[t.id := t], replies)
  {
  }

  /** Replacing a reply row by one with the same id and thread keeps the
      invariant. */
  lemma SetReplyPreserves(threads: map<Guid, ForumThread>, replies: map<Guid, ThreadReply>, r: ThreadReply)
    requires TablesInvariant(threads, replies) && r.id in replies
    requires r.threadId == replies[r.id].threadId && r.violation.Consistent()
    ensures TablesInvariant(threads, replies[r.id := r])
  {
    forall tid | tid in threads
      ensures StoredReplies(replies[r.id := r], tid) == StoredReplies(replies, tid)
    {
    }
  }

  class DbForumService {
    var threads: map<Guid, ForumThread>
    var replies: map<Guid, ThreadReply>

    ghost predicate Valid()
      reads this
    {
      TablesInvariant(threads, replies)
    }

    constructor ()
      ensures Valid()
      ensures threads == map[] && replies == map[]
    {
      threads := map[];
      replies := map[];
    }

    /** `CreateThreadAsync`: stores one new thread. `id` is the fresh `Guid`,
        `createdAt` and `lastReplyAt` the two clock readings. */
    method CreateThread(categoryId: string, title: string, content: string, username: string,
                        imageUrl: Option<string>, id: Guid, createdAt: Time, lastReplyAt: Time)
      returns (thread: ForumThread)
      requires Valid() && id !in threads
      modifies this
      ensures Valid()
      ensures thread == NewThread(id, categoryId, title, content, username, imageUrl, createdAt, lastReplyAt)
      ensures threads == old(threads)[id := thread] && replies == old(replies)
    {
      thread := NewThread(id, categoryId, title, content, username, imageUrl, createdAt, lastReplyAt);
      NoViolationConsistent();
      AddThreadPreserves(threads, replies, thread);
      threads := threads[id := thread];
    }

    /** Every thread, pinned first, then by latest reply, newest first
        (`GetAllThreadsAsync`). */
    method GetAllThreads() returns (r: seq<ForumThread>)
      requires Valid()
      ensures Distinct(r)
      ensures forall t :: t in r <==> t in threads.Values
      ensures Ordered(r, ThreadListKey)
    {
      r := ListWhere(threads, ThreadIdOf, AnyThread(), ThreadListKey);
    }

    /** The threads whose category id is exactly `categoryId`, case
        included, in the same order (`GetThreadsByCategoryAsync`). */
    method GetThreadsByCategory(categoryId: string) returns (r: seq<ForumThread>)
      requires Valid()
      ensures Distinct(r)
      ensures forall t :: t in r <==> t in threads.Values && t.categoryId == categoryId
      ensures Ordered(r, ThreadListKey)
    {
      r := ListWhere(threads, ThreadIdOf, InCategory(categoryId), ThreadListKey);
    }

    /** The thread with id `tid`, if stored (`GetThreadByIdAsync`). */
    method GetThreadById(tid: Guid) returns (r: Option<ForumThread>)
      ensures r.Some? ==> r.value in threads.Values && r.value.id == tid
      ensures r.None? <==> forall k :: k in threads ==> threads[k].id != tid
    {
      r := FindWhere(threads, ThreadIdIs(tid));
    }

    /** Every thread, newest first (`GetAllThreadsWithViolationsAsync`). */
    method GetAllThreadsWithViolations() returns (r: seq<ForumThread>)
      requires Valid()
      ensures Distinct(r)
      ensures forall t :: t in r <==> t in threads.Values
      ensures Ordered(r, ThreadCreatedKey)
    {
      r := ListWhere(threads, ThreadIdOf, AnyThread(), ThreadCreatedKey);
    }

    /** `GetThreadRepliesAsync`: no replies for a thread that is not stored;
        otherwise the thread's replies, oldest first. */
    method GetThreadReplies(tid: Guid) returns (r: seq<ThreadReply>)
      requires Valid()
      ensures tid !in threads ==> r == []
      ensures Distinct(r)
      ensures forall x :: x in r <==> tid in threads && x in replies.Values && x.threadId == tid
      ensures Ordered(r, ReplyListKey)
    {
      if tid !in threads {
        r := [];
      } else {
        r := ListWhere(replies, ReplyIdOf, InThread(tid), ReplyListKey);
      }
    }

    /** `DeleteThreadAsync`: only the author may delete; the cascade takes the
        thread's replies with it. */
    method DeleteThread(tid: Guid, username: string) returns (ok: bool)
      requires Valid()
      modifies this
      ensures Valid()
      ensures ok <==> tid in old(threads) && old(threads)[tid].authorUsername == username
      ensures ok ==> threads == old(threads) - {tid} && replies == WithoutRepliesOf(old(replies), tid)
      ensures !ok ==> threads == old(threads) && replies == old(replies)
    {
      if tid !in threads || threads[tid].authorUsername != username {
        return false;
      }
      RemoveThread(tid);
      ok := true;
    }

    /** `AdminDeleteThreadAsync`: as `DeleteThread`, without the author
        check. */
    method AdminDeleteThread(tid: Guid) returns (ok: bool)
      requires Valid()
      modifies this
      ensures Valid()
      ensures ok <==> tid in old(threads)
      ensures ok ==> threads == old(threads) - {tid} && replies == WithoutRepliesOf(old(replies), tid)
      ensures !ok ==> threads == old(threads) && replies == old(replies)
    {
      if tid !in threads {
        return false;
      }
      RemoveThread(tid);
      ok := true;
    }

    /** Removes thread `tid` and, through the cascade, its replies. */
    method RemoveThread(tid: Guid)
      requires Valid() && tid in threads
      modifies this
      ensures Valid()
      ensures threads == old(threads) - {tid} && replies == WithoutRepliesOf(old(replies), tid)
    {
      RemoveThreadPreserves(threads, replies, tid);
      threads := threads - {tid};
      replies := WithoutRepliesOf(replies, tid);
    }

    /** `UpdateThreadAsync`: only the author may edit; the image changes only
        when a new one is given. */
    method UpdateThread(tid: Guid, title: string, content: string, username: string,
                        imageUrl: Option<string>) returns (ok: bool)
      requires Valid()
      modifies this
      ensures Valid()
      ensures ok <==> tid in old(threads) && old(threads)[tid].authorUsername == username
      ensures ok ==> threads == old(threads)[tid := EditedThread(old(threads)[tid], title, content, imageUrl)]
      ensures !ok ==> threads == old(threads)
      ensures replies == old(replies)
    {
      if tid !in threads || threads[tid].authorUsername != username {
        return false;
      }
      SetThreadPreserves(threads, replies, EditedThread(threads[tid], title, content, imageUrl));
      threads := threads[tid := EditedThread(threads[tid], title, content, imageUrl)];
      ok := true;
    }

    /** `CreateReplyAsync`: fails with "Thread not found" and stores nothing
        when the thread is missing; otherwise stores the reply, and the
        thread gets the reply's time and one more in its count. `id` is the
        fresh `Guid`, `createdAt` and `lastReplyAt` the two clock readings. */
    method CreateReply(tid: Guid, content: string, username: string,
                       attachmentUrl: Option<string>, attachmentFileName: Option<string>,
                       id: Guid, createdAt: Time, lastReplyAt: Time)
      returns (r: Result<ThreadReply>)
      requires Valid() && id !in replies
      modifies this
      ensures Valid()
      ensures tid !in old(threads) ==>
                r == Failure("Thread not found") && threads == old(threads) && replies == old(replies)
      ensures tid in old(threads) ==>
                && r == Success(NewReply(id, tid, content, username, createdAt, attachmentUrl, attachmentFileName))
                && replies == old(replies)[id := r.value]
                && threads == old(threads)[tid := old(threads)[tid].(lastReplyAt := lastReplyAt,
                                                                   replyCount := old(threads)[tid].replyCount + 1)]
    {
      if tid !in threads {
        return Failure("Thread not found");
      }
      var reply := NewReply(id, tid, content, username, createdAt, attachmentUrl, attachmentFileName);
      NoViolationConsistent();
      AddReply(reply, lastReplyAt);
      r := Success(reply);
    }

    /** Stores `reply` and gives its thread the time `lastReplyAt` and one
        more in its count. */
    method AddReply(reply: ThreadReply, lastReplyAt: Time)
      requires Valid() && reply.id !in replies && reply.threadId in threads
      requires reply.violation.Consistent()
      modifies this
      ensures Valid()
      ensures replies == old(replies)[reply.id := reply]
      ensures threads == ReplyCounted(old(threads), reply.threadId, lastReplyAt)
    {
      AddReplyPreserves(threads, replies, reply, lastReplyAt);
      replies := replies[reply.id := reply];
      threads := ReplyCounted(threads, reply.threadId, lastReplyAt);
    }

    /** Removes reply `rid`; its thread's count is left as it was. */
    method RemoveReply(rid: Guid)
      requires Valid() && rid in replies
      modifies this
      ensures Valid()
      ensures replies == old(replies) - {rid} && threads == old(threads)
    {
      RemoveReplyPreserves(threads, replies, rid);
      replies := replies - {rid};
    }

    /** `DeleteReplyAsync`: only the author may delete; the thread's count is
        not decremented. */
    method DeleteReply(rid: Guid, username: string) returns (ok: bool)
      requires Valid()
      modifies this
      ensures Valid()
      ensures ok <==> rid in old(replies) && old(replies)[rid].authorUsername == username
      ensures ok ==> replies == old(replies) - {rid}
      ensures !ok ==> replies == old(replies)
      ensures threads == old(threads)
    {
      if rid !in replies || replies[rid].authorUsername != username {
        return false;
      }
      RemoveReply(rid);
      ok := true;
    }

    /** `AdminDeleteReplyAsync`: as `DeleteReply`, without the author check. */
    method AdminDeleteReply(rid: Guid) returns (ok: bool)
      requires Valid()
      modifies this
      ensures Valid()
      ensures ok <==> rid in old(replies)
      ensures ok ==> replies == old(replies) - {rid}
      ensures !ok ==> replies == old(replies)
      ensures threads == old(threads)
    {
      if rid !in replies {
        return false;
      }
      RemoveReply(rid);
      ok := true;
    }

    /** Replaces reply `rid` by `r`, which keeps its id and thread. */
    method SetReply(rid: Guid, r: ThreadReply)
      requires Valid() && rid in replies
      requires r.id == rid && r.threadId == replies[rid].threadId && r.violation.Consistent()
      modifies this
      ensures Valid()
      ensures replies == old(replies)[rid := r] && threads == old(threads)
    {
      SetReplyPreserves(threads, replies, r);
      replies := replies[rid := r];
    }

    /** `UpdateReplyAsync`: only the author may edit; the reply is flagged as
        edited at `now`. */
    method UpdateReply(rid: Guid, content: string, username: string, now: Time) returns (ok: bool)
      requires Valid()
      modifies this
      ensures Valid()
      ensures ok <==> rid in old(replies) && old(replies)[rid].authorUsername == username
      ensures ok ==> replies == old(replies)[rid := EditedReply(old(replies)[rid], content, now)]
      ensures !ok ==> replies == old(replies)
      ensures threads == old(threads)
    {
      if rid !in replies || replies[rid].authorUsername != username {
        return false;
      }
      SetReply(rid, EditedReply(replies[rid], content, now));
      ok := true;
    }

    /** `MarkThreadAsViolationAsync`: any stored thread may be marked. */
    method MarkThreadAsViolation(tid: Guid, reason: string, admin: string, now: Time)
      returns (ok: bool)
      requires Valid()
      modifies this
      ensures Valid()
      ensures ok <==> tid in old(threads)
      ensures ok ==> threads == old(threads)[tid := old(threads)[tid].(violation := MarkedBy(reason, admin, now))]
      ensures !ok ==> threads == old(threads)
      ensures replies == old(replies)
    {
      if tid !in threads {
        return false;
      }
      SetThreadPreserves(threads, replies, threads[tid].(violation := MarkedBy(reason, admin, now)));
      threads := threads[tid := threads[tid].(violation := MarkedBy(reason, admin, now))];
      ok := true;
    }

    /** `RemoveViolationFromThreadAsync`: clears all four fields. */
    method RemoveViolationFromThread(tid: Guid) returns (ok: bool)
      requires Valid()
      modifies this
      ensures Valid()
      ensures ok <==> tid in old(threads)
      ensures ok ==> threads == old(threads)[tid := old(threads)[tid].(violation := NoViolation)]
      ensures !ok ==> threads == old(threads)
      ensures replies == old(replies)
    {
      if tid !in threads {
        return false;
      }
      NoViolationConsistent();
      SetThreadPreserves(threads, replies, threads[tid].(violation := NoViolation));
      threads := threads[tid := threads[tid].(violation := NoViolation)];
      ok := true;
    }

    /** `MarkReplyAsViolationAsync`: any stored reply may be marked. */
    method MarkReplyAsViolation(rid: Guid, reason: string, admin: string, now: Time)
      returns (ok: bool)
      requires Valid()
      modifies this
      ensures Valid()
      ensures ok <==> rid in old(replies)
      ensures ok ==> replies == old(replies)[rid := old(replies)[rid].(violation := MarkedBy(reason, admin, now))]
      ensures !ok ==> replies == old(replies)
      ensures threads == old(threads)
    {
      if rid !in replies {
        return false;
      }
      SetReply(rid, replies[rid].(violation := MarkedBy(reason, admin, now)));
      ok := true;
    }

    /** `RemoveViolationFromReplyAsync`: clears all four fields. */
    method RemoveViolationFromReply(rid: Guid) returns (ok: bool)
      requires Valid()
      modifies this
      ensures Valid()
      ensures ok <==> rid in old(replies)
      ensures ok ==> replies == old(replies)[rid := old(replies)[rid].(violation := NoViolation)]
      ensures !ok ==> replies == old(replies)
      ensures threads == old(threads)
    {
      if rid !in replies {
        return false;
      }
      NoViolationConsistent();
      SetReply(rid, replies[rid].(violation := NoViolation));
      ok := true;
    }
  }

  /** One reply posted and then deleted by its author: the thread still
      counts one reply while none is stored. */
  method ReplyCountDrift() returns (count: int, stored: nat)
    ensures count == 1 && stored == 0
  {
    var forum := new DbForumService();
    var thread := forum.CreateThread("software", "t", "c", "ann", None, 1, 0, 0);
    var reply := forum.CreateReply(1, "r", "bob", None, None, 2, 1, 1);
    var ok := forum.DeleteReply(2, "bob");
    count := forum.threads[1].replyCount;
    stored := |StoredReplies(forum.replies, 1)|;
    assert StoredReplies(forum.replies, 1) == {};
  }
}
