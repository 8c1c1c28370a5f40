/** The private-message store: an EF Core table of messages keyed by id.
    Each party hides a message from themselves with their own delete flag;
    the row is removed once both flags are set. Usernames are compared after
    lower-casing. */
module Messages {
  import opened Common
  import opened Sequences
  import opened Tables

  datatype PrivateMessage = PrivateMessage(
    id: string,
    senderId: string,
    senderUsername: string,
    recipientId: string,
    recipientUsername: string,
    subject: string,
    content: string,
    sentAt: Time,
    isRead: bool,
    readAt: Option<Time>,
    isDeletedBySender: bool,
    isDeletedByRecipient: bool)

  /** A message's primary key. */
  function MessageIdOf(m: PrivateMessage): string {
    m.id
  }

  /** A message as `SendAsync` builds it: unread and deleted by nobody. The
      user ids are left empty. */
  function NewMessage(id: string, sender: string, recipient: string, subject: string,
                      content: string, sentAt: Time): (m: PrivateMessage)
    ensures m.id == id && m.senderUsername == sender && m.recipientUsername == recipient
    ensures m.subject == subject && m.content == content && m.sentAt == sentAt
    ensures !m.isRead && m.readAt.None? && !m.isDeletedBySender && !m.isDeletedByRecipient
    ensures m.senderId == "" && m.recipientId == ""
  {
    PrivateMessage(id, "", sender, "", recipient, subject, content, sentAt, false, None, false, false)
  }

  /** `user` is the message's sender, compared after lower-casing. */
  predicate IsSender(m: PrivateMessage, user: string) {
    Lower(m.senderUsername) == Lower(user)
  }

  /** `user` is the message's recipient, compared after lower-casing. */
  predicate IsRecipient(m: PrivateMessage, user: string) {
    Lower(m.recipientUsername) == Lower(user)
  }

  /** The message is in `user`'s inbox. */
  function InInboxOf(user: string): PrivateMessage -> bool {
    (m: PrivateMessage) => IsRecipient(m, user) && !m.isDeletedByRecipient
  }

  /** The message is in `user`'s sent list. */
  function InSentOf(user: string): PrivateMessage -> bool {
    (m: PrivateMessage) => IsSender(m, user) && !m.isDeletedBySender
  }

  /** The message counts as unread for `user`. */
  predicate UnreadFor(m: PrivateMessage, user: string) {
    IsRecipient(m, user) && !m.isRead && !m.isDeletedByRecipient
  }

  /** `user` may open the message: a party who has not deleted their side. */
  predicate VisibleTo(m: PrivateMessage, user: string) {
    (IsRecipient(m, user) || IsSender(m, user))
    && !((IsSender(m, user) && m.isDeletedBySender) || (IsRecipient(m, user) && m.isDeletedByRecipient))
  }

  /** Messages listed newest first (`OrderByDescending(m => m.SentAt)`). */
  function SentAtKey(m: PrivateMessage): SortKey {
    SortKey(m.sentAt, 0)
  }

  /** The row is removed: both parties have deleted it. */
  predicate Purged(m: PrivateMessage) {
    m.isDeletedBySender && m.isDeletedByRecipient
  }

  /** `MarkAsReadAsync` on one message: an unread message becomes read at
      `now`; a read one is left as it is. */
  function ReadMarked(m: PrivateMessage, now: Time): (r: PrivateMessage)
    ensures r.isRead
    ensures m.isRead ==> r == m
    ensures !m.isRead ==> r.readAt == Some(now)
    ensures r.(isRead := m.isRead, readAt := m.readAt) == m
  {
    if !m.isRead then m.(isRead := true, readAt := Some(now)) else m
  }

  /** Marking twice is marking once, whatever the second clock reading. */
  lemma ReadMarkedIdempotent(m: PrivateMessage, now: Time, later: Time)
    ensures ReadMarked(ReadMarked(m, now), later) == ReadMarked(m, now)
  {
  }

  /** `DeleteAsync` on one message: the sender's flag when the caller is the
      sender, otherwise the recipient's flag when the caller is the
      recipient, otherwise nothing. */
  function Deleted(m: PrivateMessage, user: string): (r: PrivateMessage)
    ensures r.isDeletedBySender <==> m.isDeletedBySender || IsSender(m, user)
    ensures r.isDeletedByRecipient <==>
              m.isDeletedByRecipient || (!IsSender(m, user) && IsRecipient(m, user))
    ensures r.(isDeletedBySender := m.isDeletedBySender, isDeletedByRecipient := m.isDeletedByRecipient) == m
    ensures !IsSender(m, user) && !IsRecipient(m, user) ==> r == m
  {
    if IsSender(m, user) then m.(isDeletedBySender := true)
    else if IsRecipient(m, user) then m.(isDeletedByRecipient := true)
    else m
  }

  /** One party's delete never removes a message neither party had deleted;
      it is removed exactly when the other side had already deleted it. */
  lemma OneDeleteNeverPurges(m: PrivateMessage, user: string)
    requires !m.isDeletedBySender && !m.isDeletedByRecipient
    ensures !Purged(Deleted(m, user))
  {
  }

  /** A delete removes the message exactly when the caller's delete sets the
      last flag. */
  lemma PurgedAfterDelete(m: PrivateMessage, user: string)
    requires !Purged(m)
    ensures Purged(Deleted(m, user)) <==>
              (IsSender(m, user) && m.isDeletedByRecipient)
              || (!IsSender(m, user) && IsRecipient(m, user) && m.isDeletedBySender)
  {
  }

  /** After the recipient (who is not also the sender) deletes, the message
      leaves their inbox, is no longer visible to them and no longer counts
      as unread; every sent list sees it as before. */
  lemma RecipientDeleteHides(m: PrivateMessage, user: string, anyone: string)
    requires IsRecipient(m, user) && !IsSender(m, user)
    ensures !InInboxOf(user)(Deleted(m, user))
    ensures !VisibleTo(Deleted(m, user), user)
    ensures !UnreadFor(Deleted(m, user), user)
    ensures InSentOf(anyone)(Deleted(m, user)) == InSentOf(anyone)(m)
    ensures VisibleTo(m, m.senderUsername) ==> VisibleTo(Deleted(m, user), m.senderUsername)
  {
  }

  /** After the sender deletes, the message leaves their sent list and is no
      longer visible to them; every inbox sees it as before, and a recipient
      other than the sender can still open it. */
  lemma SenderDeleteHides(m: PrivateMessage, user: string, anyone: string)
    requires IsSender(m, user)
    ensures !InSentOf(user)(Deleted(m, user))
    ensures !VisibleTo(Deleted(m, user), user)
    ensures InInboxOf(anyone)(Deleted(m, user)) == InInboxOf(anyone)(m)
    ensures UnreadFor(Deleted(m, user), anyone) == UnreadFor(m, anyone)
    ensures !IsSender(m, m.recipientUsername) && VisibleTo(m, m.recipientUsername) ==>
              VisibleTo(Deleted(m, user), m.recipientUsername)
  {
  }

  /** A message to oneself is never removed: every delete by its one party
      sets the sender's flag, so the recipient's flag stays clear. */
  lemma SelfMessageNeverPurged(m: PrivateMessage, user: string)
    requires Lower(m.senderUsername) == Lower(m.recipientUsername) && !m.isDeletedByRecipient
    ensures !Deleted(m, user).isDeletedByRecipient
    ensures !Purged(Deleted(m, user))
  {
  }

  class DbPrivateMessageService {
    var messages: map<string, PrivateMessage>

    ghost predicate Valid()
      reads this
    {
      Keyed(messages, MessageIdOf)
      && forall id :: id in messages ==> !Purged(messages[id])
    }

    constructor ()
      ensures Valid() && messages == map[]
    {
      messages := map[];
    }

    /** `GetInboxAsync`: the messages to `user` they have not deleted,
        newest first. */
    method GetInbox(user: string) returns (r: seq<PrivateMessage>)
      requires Valid()
      ensures Distinct(r)
      ensures forall m :: m in r <==> m in messages.Values && IsRecipient(m, user) && !m.isDeletedByRecipient
      ensures Ordered(r, SentAtKey)
    {
      r := ListWhere(messages, MessageIdOf, InInboxOf(user), SentAtKey);
    }

    /** `GetSentAsync`: the messages from `user` they have not deleted,
        newest first. */
    method GetSent(user: string) returns (r: seq<PrivateMessage>)
      requires Valid()
      ensures Distinct(r)
      ensures forall m :: m in r <==> m in messages.Values && IsSender(m, user) && !m.isDeletedBySender
      ensures Ordered(r, SentAtKey)
    {
      r := ListWhere(messages, MessageIdOf, InSentOf(user), SentAtKey);
    }

    /** `GetMessageAsync`: message `id`, if `user` is a party who has not
        deleted their side. */
    method GetMessage(id: string, user: string) returns (r: Option<PrivateMessage>)
      ensures r.Some? ==> r.value in messages.Values && r.value.id == id && VisibleTo(r.value, user)
      ensures r.None? <==> forall k :: k in messages ==> !(messages[k].id == id && VisibleTo(messages[k], user))
    {
      r := FindWhere(messages, (m: PrivateMessage) => m.id == id && VisibleTo(m, user));
    }

    /** The ids of the messages in `user`'s inbox. */
    function InboxIds(user: string): set<string>
      reads this
    {
      set id | id in messages && InInboxOf(user)(messages[id])
    }

    /** `GetUnreadCountAsync`: how many of `user`'s inbox messages are
        unread. */
    function GetUnreadCount(user: string): (n: nat)
      reads this
      ensures n <= |InboxIds(user)|
      ensures n == 0 <==> forall id :: id in messages ==> !UnreadFor(messages[id], user)
    {
      var unread := set id | id in messages && UnreadFor(messages[id], user);
      SubsetCard(unread, InboxIds(user));
      assert forall id :: id in messages && UnreadFor(messages[id], user) ==> id in unread;
      |unread|
    }

    /** `SendAsync`: stores one new message. `id` is the fresh `Guid` string
        and `now` the clock reading. */
    method Send(sender: string, recipient: string, subject: string, content: string,
                id: string, now: Time)
      requires Valid() && id !in messages
      modifies this
      ensures Valid()
      ensures messages == old(messages)[id := NewMessage(id, sender, recipient, subject, content, now)]
    {
      messages := messages[id := NewMessage(id, sender, recipient, subject, content, now)];
    }

    /** `MarkAsReadAsync`: marks message `id` read, if stored and unread. */
    method MarkAsRead(id: string, now: Time)
      requires Valid()
      modifies this
      ensures Valid()
      ensures id in old(messages) ==> messages == old(messages)[id := ReadMarked(old(messages)[id], now)]
      ensures id !in old(messages) || old(messages)[id].isRead ==> messages == old(messages)
    {
      if id in messages && !messages[id].isRead {
        var m := messages[id];
        messages := messages[id := m.(isRead := true, readAt := Some(now))];
      }
    }

    /** `DeleteAsync`: sets the caller's flag on message `id`, and removes the
        message once both flags are set. */
    method Delete(id: string, user: string)
      requires Valid()
      modifies this
      ensures Valid()
      ensures id !in old(messages) ==> messages == old(messages)
      ensures id in old(messages) && Purged(Deleted(old(messages)[id], user)) ==>
                messages == old(messages) - {id}
      ensures id in old(messages) && !Purged(Deleted(old(messages)[id], user)) ==>
                messages == old(messages)[id := Deleted(old(messages)[id], user)]
    {
      if id in messages {
        var m := messages[id];
        var lowered := Lower(user);
        if Lower(m.senderUsername) == lowered {
          m := m.(isDeletedBySender := true);
        } else if Lower(m.recipientUsername) == lowered {
          m := m.(isDeletedByRecipient := true);
        }
        if m.isDeletedBySender && m.isDeletedByRecipient {
          messages := messages - {id};
        } else {
          messages := messages[id := m];
        }
      }
    }
  }

  /** Alice writes to Bob; Bob sees one unread message, reads it, and then
      sees none unread. */
  method UnreadScenario() returns (unreadBefore: nat, unreadAfter: nat)
    ensures unreadBefore == 1 && unreadAfter == 0
  {
    LowerOfLowerCase("bob");
    var store := new DbPrivateMessageService();
    store.Send("alice", "bob", "Hi", "Hello Bob", "m1", 10);
    var m := NewMessage("m1", "alice", "bob", "Hi", "Hello Bob", 10);
    assert store.messages == map["m1" := m];
    assert UnreadFor(m, "bob");
    assert (set id | id in store.messages && UnreadFor(store.messages[id], "bob")) == {"m1"};
    unreadBefore := store.GetUnreadCount("bob");
    store.MarkAsRead("m1", 11);
    var read := ReadMarked(m, 11);
    assert store.messages == map["m1" := read];
    assert forall id :: id in store.messages ==> !UnreadFor(store.messages[id], "bob");
    unreadAfter := store.GetUnreadCount("bob");
  }

  /** Alice writes to Bob and Bob deletes the message: it leaves his inbox
      and stays in Alice's sent list. */
  method RecipientDeleteScenario()
    returns (bobInbox: seq<PrivateMessage>, aliceSent: seq<PrivateMessage>, kept: PrivateMessage)
    ensures |bobInbox| == 0
    ensures aliceSent == [kept] && kept.isDeletedByRecipient && !kept.isDeletedBySender
  {
    LowerOfLowerCase("alice");
    LowerOfLowerCase("bob");
    var store := new DbPrivateMessageService();
    store.Send("alice", "bob", "Hi", "Hello Bob", "m1", 10);
    var m := NewMessage("m1", "alice", "bob", "Hi", "Hello Bob", 10);
    assert store.messages == map["m1" := m];
    store.Delete("m1", "bob");
    kept := Deleted(m, "bob");
    assert IsRecipient(m, "bob") && !IsSender(m, "bob");
    assert !Purged(kept);
    assert store.messages == map["m1" := kept];
    assert store.messages.Values == {kept};
    bobInbox := store.GetInbox("bob");
    aliceSent := store.GetSent("alice");
    assert !InInboxOf("bob")(kept);
    NoMembersEmpty(bobInbox);
    assert kept in aliceSent;
    DistinctSingleton(aliceSent, kept);
    assert aliceSent[0] == kept;
  }
}
