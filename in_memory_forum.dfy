/** The in-memory content store: two lists, threads and replies, that the
    operations change in place. The reply count of a thread is recomputed
    from the reply list whenever a reply of that thread is added or removed. */
module InMemoryForum {
  import opened Common
  import opened Sequences
  import opened ForumModel

  /** A thread's category matches `categoryId` ignoring case. */
  function InCategoryIgnoreCase(categoryId: string): ForumThread -> bool {
    (t: ForumThread) => EqualsIgnoreCase(t.categoryId, categoryId)
  }

  /** Every thread's stored count is the number of stored replies that name
      it as their thread. */
  ghost predicate CountsAgree(threads: seq<ForumThread>, replies: seq<ThreadReply>) {
    forall t :: t in threads ==> t.replyCount == |RepliesOf(replies, t.id)|
  }

  /** Every stored record's violation fields are set or cleared together. */
  ghost predicate MarksConsistent(threads: seq<ForumThread>, replies: seq<ThreadReply>) {
    (forall t :: t in threads ==> t.violation.Consistent())
    && (forall r :: r in replies ==> r.violation.Consistent())
  }

  /** What the two lists keep between operations: unique ids, counts that
      agree with the reply list and consistent violation fields. */
  ghost predicate ListsInvariant(threads: seq<ForumThread>, replies: seq<ThreadReply>) {
    UniqueBy(threads, ThreadIdOf)
    && UniqueBy(replies, ReplyIdOf)
    && CountsAgree(threads, replies)
    && MarksConsistent(threads, replies)
  }

  /** The thread list after the count of thread `tid` moved by `delta` and,
      when one is given, its latest-reply time became `lastReplyAt`. */
  function Recounted(threads: seq<ForumThread>, tid: Guid, delta: int, lastReplyAt: Option<Time>)
    : (r: seq<ForumThread>)
    ensures |r| == |threads|
    ensures forall j :: 0 <= j < |r| ==>
              r[j].id == threads[j].id && r[j].violation == threads[j].violation
              && r[j].replyCount == threads[j].replyCount + (if threads[j].id == tid then delta else 0)
    ensures forall j :: 0 <= j < |r| && threads[j].id == tid ==>
              r[j].lastReplyAt == lastReplyAt.GetOr(threads[j].lastReplyAt)
              && r[j].(replyCount := threads[j].replyCount, lastReplyAt := threads[j].lastReplyAt) == threads[j]
    ensures forall j :: 0 <= j < |r| && threads[j].id != tid ==> r[j] == threads[j]
  {
    seq(|threads|, j requires 0 <= j < |threads| =>
      if threads[j].id == tid
      then threads[j].(replyCount := threads[j].replyCount + delta,
                       lastReplyAt := lastReplyAt.GetOr(threads[j].lastReplyAt))
      else threads[j])
  }

  /** With unique ids, recounting changes only the one thread with id
      `tid`, when there is one, and nothing otherwise. */
  lemma RecountedAt(threads: seq<ForumThread>, tid: Guid, delta: int, lastReplyAt: Option<Time>, k: Option<nat>)
    requires UniqueBy(threads, ThreadIdOf)
    requires k.Some? ==> k.value < |threads| && threads[k.value].id == tid
    requires k.None? ==> forall j :: 0 <= j < |threads| ==> threads[j].id != tid
    ensures k.None? ==> Recounted(threads, tid, delta, lastReplyAt) == threads
    ensures k.Some? ==> Recounted(threads, tid, delta, lastReplyAt)
                          == threads[k.value := Recounted(threads, tid, delta, lastReplyAt)[k.value]]
  {
    var r := Recounted(threads, tid, delta, lastReplyAt);
    if k.Some? {
      var i := k.value;
      forall j | 0 <= j < |threads| && j != i ensures r[j] == threads[j] {
        if j < i {
          assert ThreadIdOf(threads[j]) != ThreadIdOf(threads[i]);
        } else {
          assert ThreadIdOf(threads[i]) != ThreadIdOf(threads[j]);
        }
      }
    }
  }

  /** Appending a thread with a fresh id and no replies keeps the
      invariant. */
  lemma AppendThreadPreserves(threads: seq<ForumThread>, replies: seq<ThreadReply>, t: ForumThread)
    requires ListsInvariant(threads, replies)
    requires forall x :: x in threads ==> x.id != t.id
    requires forall r :: r in replies ==> r.threadId != t.id
    requires t.replyCount == 0 && t.violation.Consistent()
    ensures ListsInvariant(threads + [t], replies)
  {
    FilterNone(replies, InThread(t.id));
    forall i | 0 <= i < |threads| ensures threads[i].id != t.id {
      assert threads[i] in threads;
    }
  }

  /** Removing a thread together with its replies keeps the invariant. */
  lemma RemoveThreadPreserves(threads: seq<ForumThread>, replies: seq<ThreadReply>, tid: Guid)
    requires ListsInvariant(threads, replies)
    ensures ListsInvariant(Filter(threads, ThreadIdIsNot(tid)), Filter(replies, NotInThread(tid)))
  {
    FilterUniqueBy(threads, ThreadIdIsNot(tid), ThreadIdOf);
    FilterUniqueBy(replies, NotInThread(tid), ReplyIdOf);
    FilterMembers(threads, ThreadIdIsNot(tid));
    FilterMembers(replies, NotInThread(tid));
    forall t | t in threads && t.id != tid
      ensures RepliesOf(Filter(replies, NotInThread(tid)), t.id) == RepliesOf(replies, t.id)
    {
      CascadeRemovesOnlyThatThread(replies, tid, t.id);
    }
  }

  /** Replacing a thread by one with the same id and count keeps the
      invariant. */
  lemma SetThreadPreserves(threads: seq<ForumThread>, replies: seq<ThreadReply>, i: nat, t: ForumThread)
    requires ListsInvariant(threads, replies) && i < |threads|
    requires t.id == threads[i].id && t.replyCount == threads[i].replyCount && t.violation.Consistent()
    ensures ListsInvariant(threads[i := t], replies)
  {
    forall x | x in threads[i := t] ensures x.replyCount == |RepliesOf(replies, x.id)| && x.violation.Consistent() {
      var j :| 0 <= j < |threads| && threads[i := t][j] == x;
      assert threads[j] in threads;
    }
  }

  /** Appending a reply with a fresh id and counting it on its thread keeps
      the invariant. */
  lemma AppendReplyPreserves(threads: seq<ForumThread>, replies: seq<ThreadReply>,
                             reply: ThreadReply, lastReplyAt: Time)
    requires ListsInvariant(threads, replies)
    requires forall r :: r in replies ==> r.id != reply.id
    requires reply.violation.Consistent()
    ensures ListsInvariant(Recounted(threads, reply.threadId, 1, Some(lastReplyAt)), replies + [reply])
  {
    var ts := Recounted(threads, reply.threadId, 1, Some(lastReplyAt));
    forall x | x in ts ensures x.replyCount == |RepliesOf(replies + [reply], x.id)| && x.violation.Consistent() {
      var j :| 0 <= j < |ts| && ts[j] == x;
      assert threads[j] in threads;
      CountAfterAppend(replies, reply, x.id);
    }
    forall i | 0 <= i < |replies| ensures replies[i].id != reply.id {
      assert replies[i] in replies;
    }
  }

  /** Removing the reply at `i` and counting one reply less on its thread
      keeps the invariant. */
  lemma RemoveReplyPreserves(threads: seq<ForumThread>, replies: seq<ThreadReply>, i: nat)
    requires ListsInvariant(threads, replies) && i < |replies|
    ensures ListsInvariant(Recounted(threads, replies[i].threadId, -1, None), replies[..i] + replies[i + 1..])
  {
    var rid := replies[i].id;
    var rest := replies[..i] + replies[i + 1..];
    RemoveAtIsFilter(replies, i, ReplyIdIsNot(rid));
    FilterUniqueBy(replies, ReplyIdIsNot(rid), ReplyIdOf);
    FilterMembers(replies, ReplyIdIsNot(rid));
    var ts := Recounted(threads, replies[i].threadId, -1, None);
    forall x | x in ts ensures x.replyCount == |RepliesOf(rest, x.id)| && x.violation.Consistent() {
      var j :| 0 <= j < |ts| && ts[j] == x;
      assert threads[j] in threads;
      CountAfterRemove(replies, i, x.id);
    }
  }

  /** Replacing a reply by one with the same id and thread keeps the
      invariant. */
  lemma SetReplyPreserves(threads: seq<ForumThread>, replies: seq<ThreadReply>, i: nat, r: ThreadReply)
    requires ListsInvariant(threads, replies) && i < |replies|
    requires r.id == replies[i].id && r.threadId == replies[i].threadId && r.violation.Consistent()
    ensures ListsInvariant(threads, replies[i := r])
  {
    forall t | t in threads ensures |RepliesOf(replies[i := r], t.id)| == |RepliesOf(replies, t.id)| {
      CountAfterReplace(replies, i, r, t.id);
    }
    forall x | x in replies[i := r] ensures x.violation.Consistent() {
      var j :| 0 <= j < |replies| && replies[i := r][j] == x;
      assert replies[j] in replies;
    }
  }

  class InMemoryForumService {
    var threads: seq<ForumThread>
    var replies: seq<ThreadReply>

    ghost predicate Valid()
      reads this
    {
      ListsInvariant(threads, replies)
    }

    constructor ()
      ensures Valid()
      ensures threads == [] && replies == []
    {
      threads := [];
      replies := [];
    }

    /** The thread with id `tid`, if stored (`GetThreadByIdAsync`). */
    function GetThreadById(tid: Guid): (r: Option<ForumThread>)
      reads this
      ensures r.Some? ==> r.value in threads && r.value.id == tid
      ensures r.None? <==> forall t :: t in threads ==> t.id != tid
    {
      match IndexWhere(threads, ThreadIdIs(tid))
      case None => None
      case Some(i) => Some(threads[i])
    }

    /** The reply with id `rid`, if stored. */
    function FindReply(rid: Guid): (r: Option<ThreadReply>)
      reads this
      ensures r.Some? ==> r.value in replies && r.value.id == rid
      ensures r.None? <==> forall x :: x in replies ==> x.id != rid
    {
      match IndexWhere(replies, ReplyIdIs(rid))
      case None => None
      case Some(i) => Some(replies[i])
    }

    /** Every thread, pinned first, then by latest reply, newest first
        (`GetAllThreadsAsync`). */
    function GetAllThreads(): (r: seq<ForumThread>)
      reads this
      ensures multiset(r) == multiset(threads)
      ensures Ordered(r, ThreadListKey)
    {
      SortBy(threads, ThreadListKey)
    }

    /** The threads of one category, compared ignoring case, in the same order
        (`GetThreadsByCategoryAsync`): exactly the full listing with the other
        categories taken out. */
    function GetThreadsByCategory(categoryId: string): (r: seq<ForumThread>)
      reads this
      ensures r == Filter(GetAllThreads(), InCategoryIgnoreCase(categoryId))
      ensures forall t :: t in r <==> t in threads && EqualsIgnoreCase(t.categoryId, categoryId)
      ensures Ordered(r, ThreadListKey)
    {
      var p := InCategoryIgnoreCase(categoryId);
      FilterSortCommute(threads, ThreadListKey, p);
      FilterMembers(threads, p);
      SortByElements(Filter(threads, p), ThreadListKey);
      SortBy(Filter(threads, p), ThreadListKey)
    }

    /** The replies of one thread, oldest first (`GetThreadRepliesAsync`). */
    function GetThreadReplies(tid: Guid): (r: seq<ThreadReply>)
      reads this
      ensures multiset(r) == multiset(RepliesOf(replies, tid))
      ensures forall x :: x in r <==> x in replies && x.threadId == tid
      ensures Ordered(r, ReplyListKey)
    {
      RepliesOfMembers(replies, tid);
      SortByElements(RepliesOf(replies, tid), ReplyListKey);
      SortBy(RepliesOf(replies, tid), ReplyListKey)
    }

    /** Every thread, newest first (`GetAllThreadsWithViolationsAsync`). */
    function GetAllThreadsWithViolations(): (r: seq<ForumThread>)
      reads this
      ensures multiset(r) == multiset(threads)
      ensures Ordered(r, ThreadCreatedKey)
    {
      SortBy(threads, ThreadCreatedKey)
    }

    /** A stored thread lists as many replies as its count says. */
    lemma ListedRepliesMatchCount(tid: Guid)
      requires Valid() && GetThreadById(tid).Some?
      ensures |GetThreadReplies(tid)| == GetThreadById(tid).value.replyCount
    {
      var r := GetThreadReplies(tid);
      assert |r| == |multiset(r)| == |multiset(RepliesOf(replies, tid))|;
    }

    /** `CreateThreadAsync`: appends one new thread. `id` is the fresh
        `Guid`, `createdAt` and `lastReplyAt` the two clock readings. */
    method CreateThread(categoryId: string, title: string, content: string, username: string,
                        imageUrl: Option<string>, id: Guid, createdAt: Time, lastReplyAt: Time)
      returns (thread: ForumThread)
      requires Valid()
      requires forall t :: t in threads ==> t.id != id
      requires forall r :: r in replies ==> r.threadId != id
      modifies this
      ensures Valid()
      ensures thread == NewThread(id, categoryId, title, content, username, imageUrl, createdAt, lastReplyAt)
      ensures threads == old(threads) + [thread]
      ensures replies == old(replies)
    {
      thread := NewThread(id, categoryId, title, content, username, imageUrl, createdAt, lastReplyAt);
      NoViolationConsistent();
      AppendThreadPreserves(threads, replies, thread);
      threads := threads + [thread];
    }

    /** Removes the thread at `i` and, with it, every reply of that thread. */
    method RemoveThreadAt(i: nat)
      requires Valid() && i < |threads|
      modifies this
      ensures Valid()
      ensures threads == Filter(old(threads), ThreadIdIsNot(old(threads)[i].id))
      ensures replies == Filter(old(replies), NotInThread(old(threads)[i].id))
    {
      var tid := threads[i].id;
      RemoveAtIsFilter(threads, i, ThreadIdIsNot(tid));
      RemoveThreadPreserves(threads, replies, tid);
      threads := threads[..i] + threads[i + 1..];
      replies := Filter(replies, NotInThread(tid));
    }

    /** `DeleteThreadAsync`: only the thread's author may delete it; its
        replies go with it. */
    method DeleteThread(tid: Guid, username: string) returns (ok: bool)
      requires Valid()
      modifies this
      ensures Valid()
      ensures ok <==> old(GetThreadById(tid)).Some? && old(GetThreadById(tid)).value.authorUsername == username
      ensures ok ==> threads == Filter(old(threads), ThreadIdIsNot(tid))
      ensures ok ==> replies == Filter(old(replies), NotInThread(tid))
      ensures !ok ==> threads == old(threads) && replies == old(replies)
    {
      var k := IndexWhere(threads, ThreadIdIs(tid));
      if k.Some? && threads[k.value].authorUsername == username {
        RemoveThreadAt(k.value);
        ok := true;
      } else {
        ok := false;
      }
    }

    /** `AdminDeleteThreadAsync`: as `DeleteThread`, without the author
        check. */
    method AdminDeleteThread(tid: Guid) returns (ok: bool)
      requires Valid()
      modifies this
      ensures Valid()
      ensures ok <==> old(GetThreadById(tid)).Some?
      ensures ok ==> threads == Filter(old(threads), ThreadIdIsNot(tid))
      ensures ok ==> replies == Filter(old(replies), NotInThread(tid))
      ensures !ok ==> threads == old(threads) && replies == old(replies)
    {
      var k := IndexWhere(threads, ThreadIdIs(tid));
      if k.Some? {
        RemoveThreadAt(k.value);
        ok := true;
      } else {
        ok := false;
      }
    }

    /** Replaces the thread at `i` by `t`, which keeps its id and count. */
    method SetThreadAt(i: nat, t: ForumThread)
      requires Valid() && i < |threads|
      requires t.id == threads[i].id && t.replyCount == threads[i].replyCount
      requires t.violation.Consistent()
      modifies this
      ensures Valid()
      ensures threads == old(threads)[i := t] && replies == old(replies)
    {
      SetThreadPreserves(threads, replies, i, t);
      threads := threads[i := t];
    }

    /** `UpdateThreadAsync`: only the author may edit; the image changes only
        when a new one is given. */
    method UpdateThread(tid: Guid, title: string, content: string, username: string,
                        imageUrl: Option<string>) returns (ok: bool)
      requires Valid()
      modifies this
      ensures Valid()
      ensures ok <==> old(GetThreadById(tid)).Some? && old(GetThreadById(tid)).value.authorUsername == username
      ensures replies == old(replies) && |threads| == |old(threads)|
      ensures forall i :: 0 <= i < |threads| ==>
                threads[i] == if ok && old(threads)[i].id == tid
                              then EditedThread(old(threads)[i], title, content, imageUrl)
                              else old(threads)[i]
    {
      var k := IndexWhere(threads, ThreadIdIs(tid));
      if k.Some? && threads[k.value].authorUsername == username {
        assert threads[k.value] in threads;
        SetThreadAt(k.value, EditedThread(threads[k.value], title, content, imageUrl));
        ok := true;
      } else {
        ok := false;
      }
    }

    /** `MarkThreadAsViolationAsync`: any stored thread may be marked. */
    method MarkThreadAsViolation(tid: Guid, reason: string, admin: string, now: Time)
      returns (ok: bool)
      requires Valid()
      modifies this
      ensures Valid()
      ensures ok <==> old(GetThreadById(tid)).Some?
      ensures replies == old(replies) && |threads| == |old(threads)|
      ensures forall i :: 0 <= i < |threads| ==>
                threads[i] == if old(threads)[i].id == tid
                              then old(threads)[i].(violation := MarkedBy(reason, admin, now))
                              else old(threads)[i]
    {
      var k := IndexWhere(threads, ThreadIdIs(tid));
      if k.Some? {
        SetThreadAt(k.value, threads[k.value].(violation := MarkedBy(reason, admin, now)));
        ok := true;
      } else {
        ok := false;
      }
    }

    /** `RemoveViolationFromThreadAsync`: clears all four fields. */
    method RemoveViolationFromThread(tid: Guid) returns (ok: bool)
      requires Valid()
      modifies this
      ensures Valid()
      ensures ok <==> old(GetThreadById(tid)).Some?
      ensures replies == old(replies) && |threads| == |old(threads)|
      ensures forall i :: 0 <= i < |threads| ==>
                threads[i] == if old(threads)[i].id == tid
                              then old(threads)[i].(violation := NoViolation)
                              else old(threads)[i]
    {
      var k := IndexWhere(threads, ThreadIdIs(tid));
      if k.Some? {
        NoViolationConsistent();
        SetThreadAt(k.value, threads[k.value].(violation := NoViolation));
        ok := true;
      } else {
        ok := false;
      }
    }
  
    /** `CreateReplyAsync`: appends the reply whether or not its thread is
        stored; a stored thread gets the reply's time and a recounted total.
        `id` is the fresh `Guid`, `createdAt` and `lastReplyAt` the two clock
        readings. */
    method CreateReply(tid: Guid, content: string, username: string,
                       attachmentUrl: Option<string>, attachmentFileName: Option<string>,
                       id: Guid, createdAt: Time, lastReplyAt: Time)
      returns (reply: ThreadReply)
      requires Valid()
      requires forall r :: r in replies ==> r.id != id
      modifies this
      ensures Valid()
      ensures reply == NewReply(id, tid, content, username, createdAt, attachmentUrl, attachmentFileName)
      ensures replies == old(replies) + [reply]
      ensures threads == Recounted(old(threads), tid, 1, Some(lastReplyAt))
    {
      reply := NewReply(id, tid, content, username, createdAt, attachmentUrl, attachmentFileName);
      NoViolationConsistent();
      AppendReplyPreserves(threads, replies, reply, lastReplyAt);
      RecountedAt(threads, tid, 1, Some(lastReplyAt), IndexWhere(threads, ThreadIdIs(tid)));
      CountAfterAppend(replies, reply, tid);
      replies := replies + [reply];
      var k := IndexWhere(threads, ThreadIdIs(tid));
      if k.Some? {
        assert threads[k.value] in threads;
        threads := threads[k.value := threads[k.value].(lastReplyAt := lastReplyAt,
                                                         replyCount := |RepliesOf(replies, tid)|)];
      }
    }

    /** Removes the reply at `i` and recounts its thread, if stored. */
    method RemoveReplyAt(i: nat)
      requires Valid() && i < |replies|
      modifies this
      ensures Valid()
      ensures replies == Filter(old(replies), ReplyIdIsNot(old(replies)[i].id))
      ensures threads == Recounted(old(threads), old(replies)[i].threadId, -1, None)
    {
      var tid := replies[i].threadId;
      RemoveAtIsFilter(replies, i, ReplyIdIsNot(replies[i].id));
      RemoveReplyPreserves(threads, replies, i);
      RecountedAt(threads, tid, -1, None, IndexWhere(threads, ThreadIdIs(tid)));
      CountAfterRemove(replies, i, tid);
      replies := replies[..i] + replies[i + 1..];
      var k := IndexWhere(threads, ThreadIdIs(tid));
      if k.Some? {
        assert threads[k.value] in threads;
        threads := threads[k.value := threads[k.value].(replyCount := |RepliesOf(replies, tid)|)];
      }
    }

    /** `DeleteReplyAsync`: only the reply's author may delete it; its
        thread's count drops by one. */
    method DeleteReply(rid: Guid, username: string) returns (ok: bool)
      requires Valid()
      modifies this
      ensures Valid()
      ensures ok <==> old(FindReply(rid)).Some? && old(FindReply(rid)).value.authorUsername == username
      ensures ok ==> replies == Filter(old(replies), ReplyIdIsNot(rid))
      ensures ok ==> threads == Recounted(old(threads), old(FindReply(rid)).value.threadId, -1, None)
      ensures !ok ==> threads == old(threads) && replies == old(replies)
    {
      var k := IndexWhere(replies, ReplyIdIs(rid));
      if k.Some? && replies[k.value].authorUsername == username {
        RemoveReplyAt(k.value);
        ok := true;
      } else {
        ok := false;
      }
    }

    /** `AdminDeleteReplyAsync`: as `DeleteReply`, without the author check. */
    method AdminDeleteReply(rid: Guid) returns (ok: bool)
      requires Valid()
      modifies this
      ensures Valid()
      ensures ok <==> old(FindReply(rid)).Some?
      ensures ok ==> replies == Filter(old(replies), ReplyIdIsNot(rid))
      ensures ok ==> threads == Recounted(old(threads), old(FindReply(rid)).value.threadId, -1, None)
      ensures !ok ==> threads == old(threads) && replies == old(replies)
    {
      var k := IndexWhere(replies, ReplyIdIs(rid));
      if k.Some? {
        RemoveReplyAt(k.value);
        ok := true;
      } else {
        ok := false;
      }
    }

    /** Replaces the reply at `i` by `r`, which keeps its id and thread. */
    method SetReplyAt(i: nat, r: ThreadReply)
      requires Valid() && i < |replies|
      requires r.id == replies[i].id && r.threadId == replies[i].threadId
      requires r.violation.Consistent()
      modifies this
      ensures Valid()
      ensures replies == old(replies)[i := r] && threads == old(threads)
    {
      SetReplyPreserves(threads, replies, i, r);
      replies := replies[i := r];
    }

    /** `UpdateReplyAsync`: only the author may edit; the reply is flagged as
        edited at `now`. */
    method UpdateReply(rid: Guid, content: string, username: string, now: Time) returns (ok: bool)
      requires Valid()
      modifies this
      ensures Valid()
      ensures ok <==> old(FindReply(rid)).Some? && old(FindReply(rid)).value.authorUsername == username
      ensures threads == old(threads) && |replies| == |old(replies)|
      ensures forall i :: 0 <= i < |replies| ==>
                replies[i] == if ok && old(replies)[i].id == rid
                              then EditedReply(old(replies)[i], content, now)
                              else old(replies)[i]
    {
      var k := IndexWhere(replies, ReplyIdIs(rid));
      if k.Some? && replies[k.value].authorUsername == username {
        assert replies[k.value] in replies;
        SetReplyAt(k.value, EditedReply(replies[k.value], content, now));
        ok := true;
      } else {
        ok := false;
      }
    }

    /** `MarkReplyAsViolationAsync`: any stored reply may be marked. */
    method MarkReplyAsViolation(rid: Guid, reason: string, admin: string, now: Time)
      returns (ok: bool)
      requires Valid()
      modifies this
      ensures Valid()
      ensures ok <==> old(FindReply(rid)).Some?
      ensures threads == old(threads) && |replies| == |old(replies)|
      ensures forall i :: 0 <= i < |replies| ==>
                replies[i] == if old(replies)[i].id == rid
                              then old(replies)[i].(violation := MarkedBy(reason, admin, now))
                              else old(replies)[i]
    {
      var k := IndexWhere(replies, ReplyIdIs(rid));
      if k.Some? {
        SetReplyAt(k.value, replies[k.value].(violation := MarkedBy(reason, admin, now)));
        ok := true;
      } else {
        ok := false;
      }
    }

    /** `RemoveViolationFromReplyAsync`: clears all four fields. */
    method RemoveViolationFromReply(rid: Guid) returns (ok: bool)
      requires Valid()
      modifies this
      ensures Valid()
      ensures ok <==> old(FindReply(rid)).Some?
      ensures threads == old(threads) && |replies| == |old(replies)|
      ensures forall i :: 0 <= i < |replies| ==>
                replies[i] == if old(replies)[i].id == rid
                              then old(replies)[i].(violation := NoViolation)
                              else old(replies)[i]
    {
      var k := IndexWhere(replies, ReplyIdIs(rid));
      if k.Some? {
        NoViolationConsistent();
        SetReplyAt(k.value, replies[k.value].(violation := NoViolation));
        ok := true;
      } else {
        ok := false;
      }
    }
  }
}
