/** The forum's records, shared by the in-memory and the database-backed
    content stores: threads, replies, the admin violation mark, the list
    orders, and the reply-count laws both stores rely on. */
module ForumModel {
  import opened Common
  import opened Sequences

  /** The four violation fields a record carries (`IsViolation`,
      `ViolationReason`, `ViolationDate`, `ViolatedByAdmin`). */
  datatype Violation = Violation(isViolation: bool, reason: Option<string>,
                                 date: Option<Time>, byAdmin: Option<string>)
  {
    /** Marked records carry a reason, a date and an admin; unmarked ones
        carry none of them. */
    predicate Consistent() {
      if isViolation then reason.Some? && date.Some? && byAdmin.Some?
      else reason.None? && date.None? && byAdmin.None?
    }
  }

  /** The state of a record no admin has marked, and of one whose mark was
      removed. */
  const NoViolation := Violation(false, None, None, None)

  /** The mark an admin sets: reason and admin from the call, date from the
      clock. */
  function MarkedBy(reason: string, admin: string, now: Time): (v: Violation)
    ensures v.Consistent() && v.isViolation
    ensures v.reason == Some(reason) && v.byAdmin == Some(admin) && v.date == Some(now)
  {
    Violation(true, Some(reason), Some(now), Some(admin))
  }

  lemma NoViolationConsistent()
    ensures NoViolation.Consistent() && !NoViolation.isViolation
    ensures NoViolation.reason.None? && NoViolation.date.None? && NoViolation.byAdmin.None?
  {
  }

  datatype ForumThread = ForumThread(
    id: Guid,
    title: string,
    content: string,
    categoryId: string,
    authorUsername: string,
    createdAt: Time,
    lastReplyAt: Time,
    replyCount: int,
    isPinned: bool,
    isLocked: bool,
    imageUrl: Option<string>,
    violation: Violation)

  datatype ThreadReply = ThreadReply(
    id: Guid,
    threadId: Guid,
    content: string,
    authorUsername: string,
    createdAt: Time,
    isEdited: bool,
    editedAt: Option<Time>,
    attachmentUrl: Option<string>,
    attachmentFileName: Option<string>,
    violation: Violation)

  /** A thread as `CreateThreadAsync` builds it: no replies, not pinned, not
      locked, not marked. */
  function NewThread(id: Guid, categoryId: string, title: string, content: string,
                     username: string, imageUrl: Option<string>,
                     createdAt: Time, lastReplyAt: Time): (t: ForumThread)
    ensures t.id == id && t.categoryId == categoryId && t.title == title
    ensures t.content == content && t.authorUsername == username && t.imageUrl == imageUrl
    ensures t.replyCount == 0 && !t.isPinned && !t.isLocked
    ensures t.violation == NoViolation
  {
    ForumThread(id, title, content, categoryId, username, createdAt, lastReplyAt,
                0, false, false, imageUrl, NoViolation)
  }

  /** A reply as `CreateReplyAsync` builds it: not edited, not marked. */
  function NewReply(id: Guid, threadId: Guid, content: string, username: string,
                    createdAt: Time, attachmentUrl: Option<string>,
                    attachmentFileName: Option<string>): (r: ThreadReply)
    ensures r.id == id && r.threadId == threadId && r.content == content
    ensures r.authorUsername == username && r.createdAt == createdAt
    ensures r.attachmentUrl == attachmentUrl && r.attachmentFileName == attachmentFileName
    ensures !r.isEdited && r.editedAt.None? && r.violation == NoViolation
  {
    ThreadReply(id, threadId, content, username, createdAt, false, None,
                attachmentUrl, attachmentFileName, NoViolation)
  }

  /** The owner's edit of a thread: new title and content, and a new image
      only when one is given. */
  function EditedThread(t: ForumThread, title: string, content: string,
                        imageUrl: Option<string>): (e: ForumThread)
    ensures e.title == title && e.content == content
    ensures e.imageUrl == (if imageUrl.Some? then imageUrl else t.imageUrl)
    ensures e.(title := t.title, content := t.content, imageUrl := t.imageUrl) == t
  {
    t.(title := title, content := content,
       imageUrl := if imageUrl.Some? then imageUrl else t.imageUrl)
  }

  /** The owner's edit of a reply: new content, flagged as edited at `now`. */
  function EditedReply(r: ThreadReply, content: string, now: Time): (e: ThreadReply)
    ensures e.content == content && e.isEdited && e.editedAt == Some(now)
    ensures e.(content := r.content, isEdited := r.isEdited, editedAt := r.editedAt) == r
  {
    r.(content := content, isEdited := true, editedAt := Some(now))
  }

  /** A reply belongs to thread `tid`. */
  function InThread(tid: Guid): ThreadReply -> bool {
    (r: ThreadReply) => r.threadId == tid
  }

  /** A reply belongs to some thread other than `tid`. */
  function NotInThread(tid: Guid): ThreadReply -> bool {
    (r: ThreadReply) => r.threadId != tid
  }

  /** A thread's primary key. */
  function ThreadIdOf(t: ForumThread): Guid {
    t.id
  }

  /** A reply's primary key. */
  function ReplyIdOf(r: ThreadReply): Guid {
    r.id
  }

  /** A thread is the one with id `tid`. */
  function ThreadIdIs(tid: Guid): ForumThread -> bool {
    (t: ForumThread) => t.id == tid
  }

  /** A reply is the one with id `rid`. */
  function ReplyIdIs(rid: Guid): ThreadReply -> bool {
    (r: ThreadReply) => r.id == rid
  }

  /** A thread is not the one with id `tid`. */
  function ThreadIdIsNot(tid: Guid): ForumThread -> bool {
    (t: ForumThread) => t.id != tid
  }

  /** A reply is not the one with id `rid`. */
  function ReplyIdIsNot(rid: Guid): ThreadReply -> bool {
    (r: ThreadReply) => r.id != rid
  }

  /** The replies of thread `tid`, in list order
      (`_replies.Where(r => r.ThreadId == tid)`). */
  function RepliesOf(rs: seq<ThreadReply>, tid: Guid): seq<ThreadReply> {
    Filter(rs, InThread(tid))
  }

  /** Exactly the replies of thread `tid` are listed. */
  lemma RepliesOfMembers(rs: seq<ThreadReply>, tid: Guid)
    ensures forall r :: r in RepliesOf(rs, tid) <==> r in rs && r.threadId == tid
  {
    FilterMembers(rs, InThread(tid));
  }

  /** Threads listed pinned first, then by latest reply, newest first. */
  function ThreadListKey(t: ForumThread): SortKey {
    SortKey(if t.isPinned then 1 else 0, t.lastReplyAt)
  }

  /** Replies listed oldest first (`OrderBy(r => r.CreatedAt)`). */
  function ReplyListKey(r: ThreadReply): SortKey {
    SortKey(-r.createdAt, 0)
  }

  /** Threads listed newest first (`OrderByDescending(t => t.CreatedAt)`). */
  function ThreadCreatedKey(t: ForumThread): SortKey {
    SortKey(t.createdAt, 0)
  }

  /** In the thread order, a pinned thread never follows an unpinned one, and
      among equally pinned threads the later reply comes first. */
  lemma ThreadOrderMeaning(ts: seq<ForumThread>, i: nat, j: nat)
    requires Ordered(ts, ThreadListKey) && i < j < |ts|
    ensures ts[j].isPinned ==> ts[i].isPinned
    ensures ts[i].isPinned == ts[j].isPinned ==> ts[i].lastReplyAt >= ts[j].lastReplyAt
  {
    assert !KeyBefore(ThreadListKey(ts[j]), ThreadListKey(ts[i]));
  }

  /** In the reply order, an earlier-listed reply was never created later. */
  lemma ReplyOrderMeaning(rs: seq<ThreadReply>, i: nat, j: nat)
    requires Ordered(rs, ReplyListKey) && i < j < |rs|
    ensures rs[i].createdAt <= rs[j].createdAt
  {
    assert !KeyBefore(ReplyListKey(rs[j]), ReplyListKey(rs[i]));
  }

  /** In the creation order, an earlier-listed thread was never created
      earlier. */
  lemma CreatedOrderMeaning(ts: seq<ForumThread>, i: nat, j: nat)
    requires Ordered(ts, ThreadCreatedKey) && i < j < |ts|
    ensures ts[i].createdAt >= ts[j].createdAt
  {
    assert !KeyBefore(ThreadCreatedKey(ts[j]), ThreadCreatedKey(ts[i]));
  }

  /** Appending a reply adds one to its own thread's count and nothing to any
      other thread's. */
  lemma CountAfterAppend(rs: seq<ThreadReply>, r: ThreadReply, tid: Guid)
    ensures RepliesOf(rs + [r], tid) == RepliesOf(rs, tid) + (if r.threadId == tid then [r] else [])
    ensures |RepliesOf(rs + [r], tid)| == |RepliesOf(rs, tid)| + (if r.threadId == tid then 1 else 0)
  {
    FilterSnoc(rs, r, InThread(tid));
  }

  /** Removing one reply takes one from its own thread's count and nothing
      from any other thread's. */
  lemma CountAfterRemove(rs: seq<ThreadReply>, i: nat, tid: Guid)
    requires i < |rs|
    ensures |RepliesOf(rs[..i] + rs[i + 1..], tid)|
         == |RepliesOf(rs, tid)| - (if rs[i].threadId == tid then 1 else 0)
  {
    var p := InThread(tid);
    assert rs == rs[..i] + [rs[i]] + rs[i + 1..];
    FilterConcat(rs[..i] + [rs[i]], rs[i + 1..], p);
    FilterConcat(rs[..i], [rs[i]], p);
    FilterConcat(rs[..i], rs[i + 1..], p);
    FilterSnoc([], rs[i], p);
  }

  /** Editing a reply in place, keeping its thread, changes no thread's
      count. */
  lemma CountAfterReplace(rs: seq<ThreadReply>, i: nat, r: ThreadReply, tid: Guid)
    requires i < |rs| && r.threadId == rs[i].threadId
    ensures |RepliesOf(rs[i := r], tid)| == |RepliesOf(rs, tid)|
  {
    var p := InThread(tid);
    assert rs == rs[..i] + [rs[i]] + rs[i + 1..];
    assert rs[i := r] == rs[..i] + [r] + rs[i + 1..];
    FilterConcat(rs[..i] + [rs[i]], rs[i + 1..], p);
    FilterConcat(rs[..i] + [r], rs[i + 1..], p);
    FilterSnoc(rs[..i], rs[i], p);
    FilterSnoc(rs[..i], r, p);
  }

  /** The cascade (`RemoveAll(r => r.ThreadId == tid)`) leaves no reply of
      `tid` and every other thread's replies as they were. */
  lemma CascadeRemovesOnlyThatThread(rs: seq<ThreadReply>, tid: Guid, other: Guid)
    ensures RepliesOf(Filter(rs, NotInThread(tid)), tid) == []
    ensures other != tid ==> RepliesOf(Filter(rs, NotInThread(tid)), other) == RepliesOf(rs, other)
  {
    FilterFilterDisjoint(rs, NotInThread(tid), InThread(tid));
    if other != tid {
      FilterFilter(rs, NotInThread(tid), InThread(other));
    }
  }

  /** Removing a reply of another thread leaves a thread's replies as they
      were, when reply ids are unique. */
  lemma RemoveReplyKeepsOtherThreads(rs: seq<ThreadReply>, i: nat, tid: Guid)
    requires i < |rs| && rs[i].threadId != tid
    requires forall j :: 0 <= j < |rs| && j != i ==> rs[j].id != rs[i].id
    ensures RepliesOf(Filter(rs, ReplyIdIsNot(rs[i].id)), tid) == RepliesOf(rs, tid)
  {
    forall x | x in rs && InThread(tid)(x) ensures ReplyIdIsNot(rs[i].id)(x) {
      var j :| 0 <= j < |rs| && rs[j] == x;
    }
    FilterFilter(rs, ReplyIdIsNot(rs[i].id), InThread(tid));
  }
}
