# Forum stores in Dafny

This project models the state-keeping services of a small discussion forum
written in C# on ASP.NET Core: the stores behind threads and replies, private
messages, user accounts, the fixed category registry and the "fun form"
submissions. Each service file becomes one Dafny module, except that the
two user stores share the module `Identity`; each store class becomes a Dafny `class` whose fields are the collections the C# class
changes in place:

- `InMemoryForum` models `InMemoryForumService`. It holds two lists,
  threads and replies. A thread's reply count is recomputed from the reply
  list every time one of its replies is added or removed.
- `DbForum` models `DbForumService`, the store the application runs with.
  Its two EF Core tables become maps keyed by id. Adding a reply to a
  missing thread fails. Adding a reply increments the count; deleting a
  reply leaves the count as it is. Deleting a thread removes its replies
  through the cascade rule at `Data/ForumDbContext.cs:43-46`.
- `Messages` models `DbPrivateMessageService`: a message table with one
  soft-delete flag per party. A row is removed once both flags are set.
- `Identity` models `InMemoryUserService` and `DbUserService`.
  Registration refuses a username that is taken ignoring case. Validation
  compares password hashes.
- `ForumCategories` models the seven-entry registry and its lookup by id,
  which ignores case.
- `FunForms` models `InMemoryFunFormService`, a list that only grows.

The shared modules are:

- `Common`: option and result types, clock readings, ids, and ASCII
  lower-casing.
- `Sequences`: LINQ `Where`, `FirstOrDefault` and `OrderBy`/`ThenBy`,
  with their lemmas.
- `Tables`: listing and searching a map, for the EF-backed stores.

Both forum stores keep an invariant. It is a predicate over the two
collections (`InMemoryForum.ListsInvariant` and `DbForum.TablesInvariant`).
For each kind of change there is a lemma saying that the change preserves
the invariant, and each mutator calls its lemma. In the in-memory store
every thread's count *equals* the number of its stored replies. In the
database store the count is only *at least* that number.

Every LINQ ordering becomes a key (`SortKey(primary, secondary)`) compared
in descending order. An ascending `CreatedAt` order uses the negated time
as its key. The in-memory listings are functions of the store's state,
proved to be a permutation of the collection, in order. The listing of a
filtered store is proved to be the filter of the full listing. The
database listings are methods over the map. They return every matching row
exactly once, in order.

## Model

| member | source | states |
|---|---|---|
| ForumModel.NewThread | Services/InMemoryForumService.cs:18-27 | a new thread carries the given category, title, content, author and image, has count 0, is neither pinned nor locked, and has no violation |
| ForumModel.NewReply | Services/InMemoryForumService.cs:106-114 | a new reply carries the given thread, content, author, time and attachment, is not edited and has no violation |
| ForumModel.EditedThread | Services/InMemoryForumService.cs:90-95 | title and content are replaced; the image is replaced only when one is given; every other field is kept |
| ForumModel.EditedReply | Services/InMemoryForumService.cs:171-173 | content replaced, flagged edited at the given time, every other field kept |
| ForumModel.MarkedBy | Services/InMemoryForumService.cs:188-191 | a violation mark sets the flag, reason, date and admin together and is consistent |
| ForumModel.NoViolationConsistent | Services/InMemoryForumService.cs:222-225 | clearing leaves flag false and reason, date and admin all null, which is consistent |
| ForumModel.ThreadOrderMeaning | Services/InMemoryForumService.cs:48-51 | in the thread listing, pinned threads come first, then later latest-reply times first |
| ForumModel.ReplyOrderMeaning | Services/InMemoryForumService.cs:134-137 | in the reply listing, creation times never decrease |
| ForumModel.CreatedOrderMeaning | Services/InMemoryForumService.cs:287 | in the moderation listing, creation times never increase |
| ForumModel.CountAfterAppend | Services/InMemoryForumService.cs:116-123 | appending a reply adds one to its own thread's count of replies and nothing to any other thread's |
| ForumModel.CountAfterRemove | Services/InMemoryForumService.cs:150-156 | removing a reply takes one from its own thread's count of replies and nothing from any other thread's |
| ForumModel.CountAfterReplace | Services/InMemoryForumService.cs:168-173 | editing a reply in place changes no thread's count of replies |
| ForumModel.CascadeRemovesOnlyThatThread | Services/InMemoryForumService.cs:74-76 | after `RemoveAll`, no reply of the deleted thread is left and every other thread keeps exactly its replies |
| ForumModel.RemoveReplyKeepsOtherThreads | Services/InMemoryForumService.cs:145-150 | removing a reply by id leaves the replies of every other thread unchanged |
| InMemoryForum.Recounted | Services/InMemoryForumService.cs:119-123 | recounting moves only the named thread's count, sets its latest-reply time when one is given and keeps its other fields, and changes no other thread |
| InMemoryForum.RecountedAt | Services/InMemoryForumService.cs:119-123 | with unique ids, the in-place update of the thread `FirstOrDefault` finds is exactly the recount, and there is no change when no thread is found |
| InMemoryForum.AppendThreadPreserves | Services/InMemoryForumService.cs:14-32 | appending a fresh thread with no replies keeps unique ids, counts equal to stored replies and consistent violation fields |
| InMemoryForum.RemoveThreadPreserves | Services/InMemoryForumService.cs:67-81 | removing a thread together with its replies keeps the invariant |
| InMemoryForum.SetThreadPreserves | Services/InMemoryForumService.cs:83-100 | replacing a thread by one with the same id and count keeps the invariant |
| InMemoryForum.AppendReplyPreserves | Services/InMemoryForumService.cs:102-128 | appending a reply with a fresh id and counting it on its thread keeps the invariant |
| InMemoryForum.RemoveReplyPreserves | Services/InMemoryForumService.cs:141-162 | removing a reply and counting one less on its thread keeps the invariant |
| InMemoryForum.SetReplyPreserves | Services/InMemoryForumService.cs:164-178 | replacing a reply by one with the same id and thread keeps the invariant |
| InMemoryForum.InMemoryForumService.constructor | Services/InMemoryForumService.cs:10-11 | both lists start empty and the invariant holds |
| InMemoryForum.InMemoryForumService.GetThreadById | Services/InMemoryForumService.cs:34-41 | a found thread is stored and has the id; nothing is found exactly when no thread has it |
| InMemoryForum.InMemoryForumService.FindReply | Services/InMemoryForumService.cs:141-145 | a found reply is stored and has the id; nothing is found exactly when no reply has it |
| InMemoryForum.InMemoryForumService.GetAllThreads | Services/InMemoryForumService.cs:43-53 | a permutation of the threads, pinned first, then by latest reply, newest first |
| InMemoryForum.InMemoryForumService.GetThreadsByCategory | Services/InMemoryForumService.cs:55-65 | exactly the threads whose category matches ignoring case, in order; it is the full listing with the other categories filtered out |
| InMemoryForum.InMemoryForumService.GetThreadReplies | Services/InMemoryForumService.cs:130-139 | a permutation of the thread's stored replies, oldest first |
| InMemoryForum.InMemoryForumService.GetAllThreadsWithViolations | Services/InMemoryForumService.cs:283-289 | a permutation of the threads, newest first |
| InMemoryForum.InMemoryForumService.ListedRepliesMatchCount | Services/InMemoryForumService.cs:119-123 | a stored thread lists exactly as many replies as its count says |
| InMemoryForum.InMemoryForumService.CreateThread | Services/InMemoryForumService.cs:14-32 | appends exactly the new thread; replies unchanged; invariant kept |
| InMemoryForum.InMemoryForumService.RemoveThreadAt | Services/InMemoryForumService.cs:74-76 | the thread and all of its replies are removed, and nothing else changes |
| InMemoryForum.InMemoryForumService.DeleteThread | Services/InMemoryForumService.cs:67-81 | succeeds exactly when the thread exists and the caller is its author (exact match); on success the thread and its replies are gone; on failure nothing changes |
| InMemoryForum.InMemoryForumService.AdminDeleteThread | Services/InMemoryForumService.cs:249-262 | as `DeleteThread`, succeeding exactly when the thread exists |
| InMemoryForum.InMemoryForumService.SetThreadAt | Services/InMemoryForumService.cs:87-95 | replaces one thread in place, keeping its id and count |
| InMemoryForum.InMemoryForumService.UpdateThread | Services/InMemoryForumService.cs:83-100 | succeeds exactly for the author; then only that thread's title, content and given image change; on failure nothing changes |
| InMemoryForum.InMemoryForumService.MarkThreadAsViolation | Services/InMemoryForumService.cs:181-196 | succeeds exactly when the thread exists; its four violation fields are set and nothing else changes |
| InMemoryForum.InMemoryForumService.RemoveViolationFromThread | Services/InMemoryForumService.cs:215-230 | succeeds exactly when the thread exists; its four violation fields are cleared |
| InMemoryForum.InMemoryForumService.CreateReply | Services/InMemoryForumService.cs:102-128 | always appends the reply; the thread with that id, if any, gets the time and one more reply; no other thread changes |
| InMemoryForum.InMemoryForumService.RemoveReplyAt | Services/InMemoryForumService.cs:148-157 | removes that one reply and recounts its thread, if stored, to one less |
| InMemoryForum.InMemoryForumService.DeleteReply | Services/InMemoryForumService.cs:141-162 | succeeds exactly for the reply's author; then the reply is gone and its thread counts one less; on failure nothing changes |
| InMemoryForum.InMemoryForumService.AdminDeleteReply | Services/InMemoryForumService.cs:264-281 | as `DeleteReply`, succeeding exactly when the reply exists |
| InMemoryForum.InMemoryForumService.SetReplyAt | Services/InMemoryForumService.cs:168-173 | replaces one reply in place, keeping its id and thread |
| InMemoryForum.InMemoryForumService.UpdateReply | Services/InMemoryForumService.cs:164-178 | succeeds exactly for the author; then only that reply is edited; on failure nothing changes |
| InMemoryForum.InMemoryForumService.MarkReplyAsViolation | Services/InMemoryForumService.cs:198-213 | succeeds exactly when the reply exists; its four violation fields are set |
| InMemoryForum.InMemoryForumService.RemoveViolationFromReply | Services/InMemoryForumService.cs:232-247 | succeeds exactly when the reply exists; its four violation fields are cleared |
| DbForum.WithoutRepliesOf | Data/ForumDbContext.cs:43-46 | the reply table after the cascade holds exactly the rows of other threads, unchanged |
| DbForum.CascadeRemovesOnlyThatThreadRows | Data/ForumDbContext.cs:43-46 | after the cascade no reply of the thread is stored and every other thread keeps all of its replies |
| DbForum.StoredAfterAdd | Services/DbForumService.cs:115 | storing a reply adds one to its own thread's stored replies and none to any other |
| DbForum.ReplyCounted | Services/DbForumService.cs:116-117 | the thread table keeps its keys; only the replied thread changes, and only in its time and count, which goes up by one |
| DbForum.AddThreadPreserves | Services/DbForumService.cs:16-34 | a new thread row with no replies keeps keys, the foreign key, counts covering stored replies and consistent violation fields |
| DbForum.RemoveThreadPreserves | Services/DbForumService.cs:62-73 | deleting a thread row with its cascade keeps the invariant |
| DbForum.AddReplyPreserves | Services/DbForumService.cs:94-121 | storing a reply of a stored thread and incrementing its count keeps the invariant |
| DbForum.RemoveReplyPreserves | Services/DbForumService.cs:132-143 | deleting a reply row without touching any count keeps the invariant (counts stay at least the stored replies) |
| DbForum.SetThreadPreserves | Services/DbForumService.cs:75-92 | replacing a thread row by one with the same id and count keeps the invariant |
| DbForum.SetReplyPreserves | Services/DbForumService.cs:145-159 | replacing a reply row by one with the same id and thread keeps the invariant |
| DbForum.DbForumService.constructor | Services/DbForumService.cs:11-14 | both tables start empty and the invariant holds |
| DbForum.DbForumService.CreateThread | Services/DbForumService.cs:16-34 | stores exactly the new thread under its fresh id; replies unchanged |
| DbForum.DbForumService.GetAllThreads | Services/DbForumService.cs:36-43 | every thread exactly once, pinned first, then by latest reply, newest first |
| DbForum.DbForumService.GetThreadsByCategory | Services/DbForumService.cs:45-53 | exactly the threads whose category equals the argument, case included, in the same order |
| DbForum.DbForumService.GetThreadById | Services/DbForumService.cs:55-60 | a found thread is stored and has the id; nothing is found exactly when no stored thread has it |
| DbForum.DbForumService.GetAllThreadsWithViolations | Services/DbForumService.cs:256-262 | every thread exactly once, newest first |
| DbForum.DbForumService.GetThreadReplies | Services/DbForumService.cs:123-130 | empty for a missing thread; otherwise each of its stored replies exactly once, oldest first |
| DbForum.DbForumService.DeleteThread | Services/DbForumService.cs:62-73 | succeeds exactly for the author; then the thread and, by the cascade, its replies are gone; on failure nothing changes |
| DbForum.DbForumService.AdminDeleteThread | Services/DbForumService.cs:230-241 | as `DeleteThread`, succeeding exactly when the thread exists |
| DbForum.DbForumService.RemoveThread | Services/DbForumService.cs:70-71 | removes the thread row and the rows of its replies |
| DbForum.DbForumService.UpdateThread | Services/DbForumService.cs:75-92 | succeeds exactly for the author; then only title, content and a given image change; on failure nothing changes |
| DbForum.DbForumService.CreateReply | Services/DbForumService.cs:94-121 | fails with "Thread not found" and changes nothing for a missing thread; otherwise stores the reply, sets the thread's time and increments its count by exactly one |
| DbForum.DbForumService.AddReply | Services/DbForumService.cs:115-117 | stores the reply and counts it on its thread |
| DbForum.DbForumService.RemoveReply | Services/DbForumService.cs:140-141 | removes the reply row only; no count changes |
| DbForum.DbForumService.DeleteReply | Services/DbForumService.cs:132-143 | succeeds exactly for the author; then only the reply row is removed and its thread's count is left as it was |
| DbForum.DbForumService.AdminDeleteReply | Services/DbForumService.cs:243-254 | as `DeleteReply`, succeeding exactly when the reply exists |
| DbForum.DbForumService.SetReply | Services/DbForumService.cs:153-156 | replaces one reply row, keeping its id and thread |
| DbForum.DbForumService.UpdateReply | Services/DbForumService.cs:145-159 | succeeds exactly for the author; then the reply is edited at the given time; on failure nothing changes |
| DbForum.DbForumService.MarkThreadAsViolation | Services/DbForumService.cs:162-177 | succeeds exactly when the thread exists; its four violation fields are set |
| DbForum.DbForumService.RemoveViolationFromThread | Services/DbForumService.cs:196-211 | succeeds exactly when the thread exists; its four violation fields are cleared |
| DbForum.DbForumService.MarkReplyAsViolation | Services/DbForumService.cs:179-194 | succeeds exactly when the reply exists; its four violation fields are set |
| DbForum.DbForumService.RemoveViolationFromReply | Services/DbForumService.cs:213-228 | succeeds exactly when the reply exists; its four violation fields are cleared |
| DbForum.ReplyCountDrift | Services/DbForumService.cs:117 | after one reply is posted and deleted, the thread still counts one reply while none is stored |
| Messages.NewMessage | Services/DbPrivateMessageService.cs:51-60 | a sent message carries sender, recipient, subject, content and time, is unread and deleted by nobody |
| Messages.ReadMarked | Services/DbPrivateMessageService.cs:69-73 | the message is read afterwards; an unread one gets the read time; a read one is unchanged; nothing else changes |
| Messages.ReadMarkedIdempotent | Services/DbPrivateMessageService.cs:66-75 | marking twice equals marking once, whatever the second clock reading |
| Messages.Deleted | Services/DbPrivateMessageService.cs:82-86 | the sender's flag is set when the caller is the sender; otherwise the recipient's flag when the caller is the recipient; a non-party changes nothing |
| Messages.OneDeleteNeverPurges | Services/DbPrivateMessageService.cs:83-92 | a single delete of a message nobody had deleted never removes it |
| Messages.PurgedAfterDelete | Services/DbPrivateMessageService.cs:89-92 | a delete removes the message exactly when it sets the last of the two flags |
| Messages.RecipientDeleteHides | Services/DbPrivateMessageService.cs:19-45 | after the recipient deletes, the message leaves their inbox, their single-message view and their unread count, while every sent list is as before |
| Messages.SenderDeleteHides | Services/DbPrivateMessageService.cs:19-45 | after the sender deletes, the message leaves their sent list and view, while every inbox and unread count is as before and a recipient who is not the sender can still open it |
| Messages.SelfMessageNeverPurged | Services/DbPrivateMessageService.cs:83-92 | a message to oneself never gets its recipient flag, so it is never removed |
| Messages.DbPrivateMessageService.constructor | Services/DbPrivateMessageService.cs:11-14 | the table starts empty |
| Messages.DbPrivateMessageService.GetInbox | Services/DbPrivateMessageService.cs:16-22 | exactly the messages to the user, ignoring case, not deleted by the recipient, once each, newest first |
| Messages.DbPrivateMessageService.GetSent | Services/DbPrivateMessageService.cs:24-30 | exactly the messages from the user, ignoring case, not deleted by the sender, once each, newest first |
| Messages.DbPrivateMessageService.GetMessage | Services/DbPrivateMessageService.cs:32-40 | a result has the id and is visible to the user as a party who has not deleted their side; nothing is returned exactly when no stored message qualifies |
| Messages.DbPrivateMessageService.GetUnreadCount | Services/DbPrivateMessageService.cs:42-47 | never more than the inbox size, and zero exactly when no stored message is unread for the user |
| Messages.DbPrivateMessageService.Send | Services/DbPrivateMessageService.cs:49-64 | stores exactly one new message under its fresh id |
| Messages.DbPrivateMessageService.MarkAsRead | Services/DbPrivateMessageService.cs:66-75 | a stored message is marked read; an unknown or already read id changes nothing |
| Messages.DbPrivateMessageService.Delete | Services/DbPrivateMessageService.cs:77-96 | an unknown id changes nothing; the row is removed when both flags end up set, and otherwise stored with the caller's flag set |
| Messages.UnreadScenario | Services/DbPrivateMessageService.cs:42-75 | a sent message counts one unread for the recipient, and none after it is read |
| Messages.RecipientDeleteScenario | Services/DbPrivateMessageService.cs:16-30 | after the recipient deletes, their inbox is empty and the sender's sent list still holds the message |
| Identity.FindUser | Services/InMemoryUserService.cs:68-69 | a found user matches the name ignoring case; nothing is found exactly when no user matches |
| Identity.AnyNamedIffFound | Services/InMemoryUserService.cs:55-72 | `UserExistsAsync` is true exactly when `GetUserByUsernameAsync` finds a user |
| Identity.ValidateIn | Services/InMemoryUserService.cs:39-53 | a user is returned exactly when one matches the name and the hash of the password is its stored hash |
| Identity.FindListedUser | Services/InMemoryUserService.cs:21-34 | with names unique ignoring case, looking up a stored user's name, in any casing, finds that user |
| Identity.ValidateAfterRegister | Services/InMemoryUserService.cs:16-53 | a user registered under a fresh name validates with its password and with no password of a different hash |
| Identity.InMemoryUserService.constructor | Services/InMemoryUserService.cs:13 | the list starts empty |
| Identity.InMemoryUserService.GetUserByUsername | Services/InMemoryUserService.cs:64-72 | a found user matches ignoring case; nothing is found exactly when no user matches |
| Identity.InMemoryUserService.UserExists | Services/InMemoryUserService.cs:55-62 | true exactly when the lookup finds a user |
| Identity.InMemoryUserService.ValidateUser | Services/InMemoryUserService.cs:39-53 | the looked-up user exactly when its stored hash is the password's hash, otherwise nothing |
| Identity.InMemoryUserService.GetAllUsers | Services/InMemoryUserService.cs:74-80 | a permutation of the users, newest first |
| Identity.InMemoryUserService.RegisterUser | Services/InMemoryUserService.cs:16-37 | succeeds exactly when no user has the name ignoring case; then appends one user with the password's hash and an empty email for a missing one, who then validates with that password; names stay unique |
| Identity.DbUserService.constructor | Services/DbUserService.cs:11-16 | the table starts empty |
| Identity.DbUserService.GetUserByUsername | Services/DbUserService.cs:55-58 | a found user matches after lower-casing; nothing is found exactly when none matches |
| Identity.DbUserService.UserExists | Services/DbUserService.cs:50-53 | true exactly when some stored user matches after lower-casing |
| Identity.DbUserService.ValidateUser | Services/DbUserService.cs:40-48 | a result matches the name and the password's hash; nothing exactly when every matching user has another hash |
| Identity.DbUserService.GetAllUsers | Services/DbUserService.cs:60-63 | every user exactly once, newest first |
| Identity.DbUserService.RegisterUser | Services/DbUserService.cs:18-38 | succeeds exactly when no stored name matches ignoring case; then stores one user with the password's hash and no admin rights; names stay unique |
| ForumCategories.GetById | Models/ForumCategory.cs:24-27 | returns the first entry whose id equals the argument ignoring case, and nothing exactly when no id matches |
| ForumCategories.CategoryIdsDistinct | Models/ForumCategory.cs:8-17 | there are seven entries and no two ids are equal ignoring case |
| ForumCategories.GetByListedId | Models/ForumCategory.cs:8-27 | looking up any listed id, in any casing, returns that entry |
| FunForms.SubmittedOrderMeaning | Services/InMemoryFunFormService.cs:28 | in the listing, submission times never increase |
| FunForms.InMemoryFunFormService.constructor | Services/InMemoryFunFormService.cs:11 | the list starts empty |
| FunForms.InMemoryFunFormService.SaveForm | Services/InMemoryFunFormService.cs:14-22 | appends exactly the form, stamped with the clock reading |
| FunForms.InMemoryFunFormService.GetAllForms | Services/InMemoryFunFormService.cs:24-30 | a permutation of the forms, newest first |
| FunForms.InMemoryFunFormService.GetUserForms | Services/InMemoryFunFormService.cs:32-41 | exactly the forms of the user, ignoring case, newest first; the full listing with other users' forms filtered out, hence a sub-multiset of it |

## Left out

- `lock`, `async` and `Task` are left out. Each call is one atomic step.
- `SHA256` and Base64 are left out. The password hash is a deterministic
  function handed to each user store when it is built.
- `DateTime.Now`, `DateTime.UtcNow` and `Guid.NewGuid()` are parameters.
  A new id must be unused, and for the in-memory thread store also unused
  by any reply's thread id. Two readings of the clock within one call are
  two parameters and are not assumed equal.
- Aliasing is left out. The C# services return the stored objects
  themselves, which a caller could change afterwards. The model returns
  values.
- `FunForms.InMemoryFunFormService.SaveForm` does not model the write into
  the caller's object: `SaveFormAsync` sets `SubmittedAt` on the form it
  is given and stores that same object, so the caller's form and the stored
  one stay shared. The model stores a stamped copy and leaves the argument
  unchanged.
- `ReplyCount` is a 32-bit `int` in C# (`Models/ForumThread.cs:28`). The
  model's counts are unbounded, so the wrap-around of `ReplyCount++` at
  `Services/DbForumService.cs:117` after 2^31 - 1 replies is left out.
- `Sequences.SortBy` states a permutation in key order, not that elements
  with equal keys keep their input order, as LINQ's stable `OrderBy` does.
- The `Include(t => t.Replies)` navigation list on database queries is
  left out. The model returns thread records without the loaded replies.
- Row order in the database tables is unspecified. The database listings
  are stated as "each matching row once, in the listing order", not as a
  stable sort of a particular row order.
- `ToLower()` and `OrdinalIgnoreCase` are ASCII lower-casing. Culture
  rules and non-ASCII case folding are left out.
- The page handlers are left out. Their guards are not preconditions of
  the stores, so the stores are modelled without them. These guards are:
  - the locked-thread check at `Pages/Thread.cshtml.cs:70-80`;
  - the upload limits;
  - the self-message check at `Pages/SendMessage.cshtml.cs:87-91`.

  Without the self-message check, a message to oneself is never removed:
  see `Messages.SelfMessageNeverPurged`.
- Promoting a user to admin is left out. No store operation does it.
- `Models/Generated` is left out. No service uses it.
- Length and required-field attributes on the models are left out.
- `InMemoryForum.InMemoryForumService.CreateThread` requires a thread id
  that no stored reply names. This stands in for the fresh `Guid`. Without
  it, a reply created earlier for a missing thread would be counted
  against the new thread.
- `DbForum.DbForumService.CreateReply`: the thrown
  `InvalidOperationException` is modelled as a `Failure` result carrying
  its message.
- Behaviours of the code a reader might not expect, modelled as written:
  - The in-memory `CreateReply` does not check that the thread exists.
  - The database reply deletes never decrement `ReplyCount`, so the
    database invariant is "count at least the stored replies". See
    `DbForum.ReplyCountDrift`.
  - The database category filter is case-sensitive, while the in-memory
    one ignores case.
  - Nothing keeps `LastReplyAt` from moving backwards. It is set to
    whatever the clock reads.
