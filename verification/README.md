# A verified model of the OpenVK instant-messaging server

The server keeps chats in SQL tables and delivers events over HTTP long polling from a
bounded Redis log. This project models its stateful core in Dafny and proves what it keeps
over every run: nothing is lost on the way to a polling client, rows that are stored twice
agree, and the fast forms compute what the simple ones say.

Code that changes stored state is modelled as classes and methods with the source's
statements and loops, each proved to leave exactly the state that a step function
describes. The theorems are about those step functions, over all runs, and compare them
with a reference that does not look at the stored form: the plain history of a counter,
the plain history of who joined and left, the words of a text.

| file | models |
|---|---|
| `Wrappers.dfy` | options, results, minimum and maximum |
| `EventLog.dfy` | the event log of one user: counter, sorted set, push, poll |
| `EventDelivery.dfy` | chains of polls over atomic pushes: nothing lost, nothing twice, exact refusals |
| `InterleavedPushes.dfy` | the same log with every push split into `INCR` and the pipelined `ZADD` and trim |
| `Broadcaster.dfy` | one-slot channels per user, filled without blocking |
| `LongPoll.dfy` | long-poll requests and pushers as interleaved steps: no lost wake-up, chained requests |
| `ChatModel.dfy` | the rows of one group chat and the step function of every endpoint |
| `ChatStore.dfy` | the same rows changed in place, statement by statement |
| `ChatHistory.dfy` | runs with a ghost history; numbering, row ids, flags, the cached pointer |
| `ChatDeletion.dfy` | what deletion hides and exactly when restoring undoes it |
| `ChatPresence.dfy` | presence periods against the history of joins and removals |
| `ChatRoles.dfy` | the checks on stored rows against rules over the history alone |
| `ChatAnswers.dfy` | which sends, deletions, restores and creations are accepted, and what they leave |
| `ChatReading.dfy` | what a mark-read call reaches, read pointers, unread counts, read receipts |
| `ChatSearch.dfy` | what a user finds by searching a chat: index, visibility and history together |
| `SendLock.dfy` | the `random_id` lock under any number of clients |
| `HistoryWindow.dfy` | the anchored history page |
| `AttachmentWalk.dfy` | the over-fetching attachment cursor |
| `NestedMessages.dfy` | breadth-first preload against the recursive renderer |
| `SearchIndex.dfy` | the blind word index, its upkeep and its queries |
| `ChatId.dfy` | the printed chat id and its parser |

`dafny verify dfyconfig.toml` checks everything.

## What is assumed

- One endpoint call on a chat is one atomic step (its SQL transaction and the row lock of
  `NextLocalID`). Runs of a chat start at its creation.
- Redis keys do not expire. In `EventDelivery` and `LongPoll` a push is one step and so are the
  three reads of a poll; in `InterleavedPushes` neither is.
- Row ids are handed out in increasing order; `gap` is the number of ids other chats took in
  between.
- The keyed hash of the index is injective, and lower-casing a word twice is lower-casing it once.
- `InterleavedPushes` takes the payloads of different pushes to be different.
- The step that posts a service message about something else (title, photo, pin) is open to
  everybody: its permission check is not modelled, which only adds runs.

## Where the code does less than promised

Each is proved, with the exact condition for all inputs.

- Replies and forwards are looked up by row id and by local id over all chats, and every chat
  has its own local ids (src/models/db/message_vk.go:180): `NestedMessages.ReplyFromAnotherChat`
  renders another chat's message under a reply, `NestedMessages.PreloadIsExact` says that the
  rendering is settled exactly when no number followed on the way leads to two rows.
- The legacy form of one message looks at its forwards alone before it preloads, so a reply is not
  rendered when there are none (src/models/db/message_vk.go:371): `NestedMessages.LegacySingleExactly`,
  with a store of two rows in `NestedMessages.LegacyDropsReply`.
- The read after a wake-up drops the "too old" error (src/transport/longpoll/longpoll.go:117):
  `LongPoll.WokenReplySkipsExactly` says when events are skipped silently,
  `LongPoll.WokenReplyMaySkip` gives a run with three pushes.
- A timed-out request skips what was pushed since its first read of the log
  (src/transport/longpoll/longpoll.go:130-139): `LongPoll.TimeoutSkipsExactly`, with a run in
  `LongPoll.TimeoutMaySkip`.
- At the grain of single commands a poll passes over an event whose `ZADD` comes after its range
  read and whose `INCR` comes before its counter read, whether or not a push is in flight at
  either: `InterleavedPushes.PollCompleteExactly`, with runs in `InterleavedPushes.PushBetweenReads`
  and `InterleavedPushes.PollPassesOver`; `InterleavedPushes.NeverDelivered` shows the loss is final.
- A payload that is pushed again leaves a hole, so a cursor can be refused long before 200 events:
  `EventDelivery.RefusedExactly` counts the different payloads that decide it, and
  `EventDelivery.RepeatedPayloadRefusesEarly` gives a run with three pushes after a cursor the
  server handed out.
- An in-chat query with a one-byte word finds nothing, because such words are never indexed
  but stay in the query (src/repo/search/indexations.go:61-67): `SearchIndex.SearchAgreesExactly`.
- Service messages have no index rows until they are edited, so no search by text finds them:
  `SearchIndex.UnindexedNeverFound`.
- The search in a chat, like the filter under it, asks for no membership, and a user without
  period rows is not limited by them: `ChatSearch.OutsiderFindsExactly`.
- Adding a user asks for no membership of the caller either: `ChatRoles.AddNeedsNoMembership`, and
  `ChatRoles.OutsiderJoinsAlone` for a user who adds themselves with the history granted.
- Deleting and restoring by one number gives everything back only if the number names one visible
  message: `ChatDeletion.RestoreUndoesDelete`, with a run in `ChatDeletion.OneNumberTwoMessages`
  where it is the local id of one message and the row id of another. Without a peer it always does:
  `ChatDeletion.RestoreByRowUndoesDelete`.
- Two communities would print different ids for the same dialogue: `ChatId.CommunitiesDisagree`.

## Model

| member | source | states |
|---|---|---|
| EventLog.UserLog.Incr | src/repo/redis/longpoll.go:159-160 | the counter grows by one and the new value is returned |
| EventLog.UserLog.AddAndTrim | src/repo/redis/longpoll.go:179-185 | the pipeline moves or adds the payload at its ts and leaves the 200 highest scores |
| EventLog.UserLog.PushEvent | src/repo/redis/longpoll.go:158-209 | a push without interference is the `Push` step |
| EventLog.UserLog.GetLongPollServer | src/transport/endpoints/longpoll/getServer.go:39-49 | a user without a counter gets one; the cursor handed out is the counter and at least 1 |
| EventLog.UserLog.DecodeAll | src/repo/redis/longpoll.go:125-143 | the loop keeps exactly the decodable payloads, in order, and the highest ts among them |
| EventLog.UserLog.GetUpdates | src/repo/redis/longpoll.go:103-156 | the call answers as `Poll` does and writes the counter back only as `AfterPoll` says |
| EventLog.ZAddKeepsOrder | src/repo/redis/longpoll.go:180-180 | adding at a fresh score keeps members ordered and unique, a repeated member moves |
| EventLog.DeliveredSpec | src/repo/redis/longpoll.go:114-143 | a poll delivers exactly the decodable entries above the cursor, in order |
| EventDelivery.LatestMembers | src/repo/redis/longpoll.go:180-181 | the reference list holds each payload exactly at its last slot of the history |
| EventDelivery.PushAgrees | src/repo/redis/longpoll.go:158-187 | the log stays the newest 200 of the payloads at their latest slots, repeats included |
| EventDelivery.PollDelivers | src/repo/redis/longpoll.go:103-156 | an accepted poll returns every decodable event pushed after the cursor, at its latest position, and a ts that leaves nothing behind |
| EventDelivery.PollIsReadOnly | src/repo/redis/longpoll.go:147-150 | with atomic pushes the write-back of the counter never happens |
| EventDelivery.LatestRetained | src/repo/redis/longpoll.go:106-112 | a cursor that is not refused has lost nothing above it to trimming |
| EventDelivery.OwedSpec | src/repo/redis/longpoll.go:114-143 | what a cursor is owed: the decodable payloads whose latest slot lies above it, in slot order |
| EventDelivery.PollPaysOwed | src/repo/redis/longpoll.go:103-156 | an accepted poll answers with exactly what its cursor is owed and the larger of cursor and history length |
| EventDelivery.ChainedPollsLoseNothing | src/repo/redis/longpoll.go:103-187 | in every run, chaining the returned ts skips no decodable event between fresh cursors, and no position is returned twice in the whole run |
| EventDelivery.PayloadsAbove | src/repo/redis/longpoll.go:180-180 | the payloads pushed from a slot on are exactly those whose latest slot lies there |
| EventDelivery.RefusedExactly | src/repo/redis/longpoll.go:106-112 | in every run, repeats included, a cursor is refused exactly when the events beyond the slot right behind it repeat every payload there is or carry at least 200 different ones |
| EventDelivery.DistinctRefusedExactly | src/repo/redis/longpoll.go:106-112 | with distinct payloads that is exactly when more than 200 events were pushed after the cursor (cursor 0 aside) |
| EventDelivery.HandedOutCursors | src/transport/endpoints/longpoll/getServer.go:39-49 | cursors handed out and those chained from them are at least 1 |
| EventDelivery.FreshCursorIsCurrent | src/transport/endpoints/longpoll/getServer.go:39-49 | on connecting and after a refusal a client goes on from the end of the history |
| EventDelivery.RepeatedPayloadRefusesEarly | src/repo/redis/longpoll.go:106-112 | a run in which a repeated payload gets a handed-out cursor refused after three events |
| InterleavedPushes.FineRunKeeps | src/repo/redis/longpoll.go:158-186 | in every interleaving, bare INCRs of GetLongPollServer included, the log is the newest 200 of the events that have landed |
| InterleavedPushes.QuiescentAgrees | src/repo/redis/longpoll.go:158-186 | once no push is in flight the log stands to the history exactly as after atomic pushes |
| InterleavedPushes.QuiescentLogIsNewest | src/repo/redis/longpoll.go:158-186 | once no push is in flight the log holds, by ts, exactly the events with fewer than 200 pushed after them, whatever the arrival order |
| InterleavedPushes.QuiescentEqualsAtomic | src/repo/redis/longpoll.go:158-186 | quiescent interleaved runs end in the log of the same draws, bare INCRs included, done one at a time |
| InterleavedPushes.OneByOneIsRun | src/transport/endpoints/longpoll/getServer.go:42-44 | if the only bare INCR came first, that is the log of a run of atomic pushes after an opened counter |
| InterleavedPushes.PollAnswersExactly | src/repo/redis/longpoll.go:106-155 | with its three reads at three moments, a poll that was not refused answers with exactly the decodable events above its cursor that the log still holds at the range read, in ts order, and the larger of cursor and counter |
| InterleavedPushes.PollCompleteExactly | src/repo/redis/longpoll.go:106-155 | of the decodable events above its cursor drawn by its counter read, it answers with those that had landed by the range read with fewer than 200 later ones; it is complete exactly when all of them had |
| InterleavedPushes.PollRefusedExactly | src/repo/redis/longpoll.go:106-112 | a poll is refused exactly when its first read finds stored events, all of them beyond the ts right behind its cursor |
| InterleavedPushes.PushBetweenReads | src/repo/redis/longpoll.go:114-145 | a run in which a whole push between range read and counter read is passed over, nothing being in flight at either |
| InterleavedPushes.OneStepPollCompleteExactly | src/repo/redis/longpoll.go:145-153 | with the reads in one step, complete exactly when no decodable push above the cursor is in flight |
| InterleavedPushes.NeverDelivered | src/repo/redis/longpoll.go:114-155 | once a cursor has reached the ts of an event, no poll from there on answers with it, whatever happens meanwhile |
| InterleavedPushes.PollPassesOver | src/repo/redis/longpoll.go:145-153 | a run of one INCR in which a poll is empty and moves past the event |
| Broadcaster.Broadcaster.Subscribe | src/transport/broadcaster/broadcaster.go:16-23 | a fresh empty channel joins the end of the user's list; other users keep theirs |
| Broadcaster.Broadcaster.Unsubscribe | src/transport/broadcaster/broadcaster.go:25-36 | the channel leaves the list, the others stay in order |
| Broadcaster.Broadcaster.Notify | src/transport/broadcaster/broadcaster.go:38-48 | every channel of the user holds a token afterwards |
| Broadcaster.RemoveFirstMultiset | src/transport/broadcaster/broadcaster.go:29-35 | removal takes exactly one occurrence out of the list |
| Broadcaster.RemoveFirstDistinct | src/transport/broadcaster/broadcaster.go:29-35 | a list without repetitions stays so and loses exactly the channel |
| LongPoll.NoWakeupIsLost | src/transport/longpoll/longpoll.go:88-143 | in every interleaving a waiting request with an event above its cursor has a token or a push still to notify it |
| LongPoll.QuietWaiterCanReceive | src/transport/longpoll/longpoll.go:115-116 | once pushes are over, a waiting request with something to read can take its token |
| LongPoll.FirstReadExactly | src/transport/longpoll/longpoll.go:91-115 | the first read reports an outdated cursor, or waits when the cursor is owed nothing, or replies with exactly what it is owed and the end of the history |
| LongPoll.FirstBatchSkipsNothing | src/transport/longpoll/longpoll.go:91-113 | a batch of the first read leaves nothing out and its ts is exactly the end of the history (or the cursor, if beyond) |
| LongPoll.WokenReplySkipsExactly | src/transport/longpoll/longpoll.go:116-128 | after a wake-up the reply is exactly what the cursor is owed and the end of the history, unless the cursor had become too old meanwhile: then it is empty, and skips events exactly if there were any |
| LongPoll.WokenReplyMaySkip | src/transport/longpoll/longpoll.go:117-117 | a run in which it does, after three pushes |
| LongPoll.QuietTimeoutSkipsNothing | src/transport/longpoll/longpoll.go:130-139 | a timeout reply made with an empty channel and no push in flight skips nothing |
| LongPoll.TimeoutSkipsExactly | src/transport/longpoll/longpoll.go:130-139 | a timeout reply skips an event exactly when a decodable one was pushed above the cursor after the request's first read |
| LongPoll.TimeoutMaySkip | src/transport/longpoll/longpoll.go:130-139 | a run in which a timeout reply skips an event |
| LongPoll.EveryReply | src/transport/longpoll/longpoll.go:91-143 | every reply ever given, in terms of the history of the moment it was made |
| LongPoll.ChainedRequestsLoseNothing | src/transport/longpoll/longpoll.go:91-143 | in every interleaving, the batches of a client that sends each reply's ts with its next request account for every decodable event between its first cursor and its last ts, none twice, as long as no reply on the way skips one |
| ChatStore.Store.NextLocalID | src/repo/chat/main.go:47-99 | the number returned and written to the conversation is one more than every local id and the cached pointer |
| ChatStore.Store.CreateServiceMessage | src/repo/chat/main.go:388-428 | exactly one row is appended, numbered next, with mid defaulting to the author |
| ChatStore.Store.ExecuteSendMessage | src/transport/endpoints/messages/send.go:405-572 | rejects a sender who is not an active member and a reply to what the sender cannot see here; else appends the row and moves the sender's read pointer |
| ChatStore.Store.FirstRows | src/repo/chat/main.go:155-188 | the member loop builds the rows of the owner and each other user, and finds out whether a key repeats |
| ChatStore.Store.CreateConversation | src/repo/chat/main.go:134-194 | fails without a trace when a user is listed twice; else owner and users are members with open periods from 1 |
| ChatStore.Store.NewChat | src/transport/endpoints/chats/create.go:22-52 | keeps positive foreign ids, creates the chat and posts its first message |
| ChatStore.Store.AddUserToConversation | src/repo/chat/main.go:196-317 | member, period and message rows after a join, or the rejection |
| ChatStore.Store.AddToChat | src/transport/endpoints/chats/add-remove-user.go:22-78 | the endpoint's own check of kicked users before the join |
| ChatStore.Store.JoinChatByInviteLink | src/transport/endpoints/chats/invites.go:268-306 | nothing for an active member, rejection for a kicked one, else a join |
| ChatStore.Store.RemoveUserFromConversation | src/repo/chat/main.go:335-345 | the member has left and loses the admin flag unless owner |
| ChatStore.Store.CloseActiveMemberPeriod | src/repo/chat/main.go:347-354 | exactly the open periods of the user get the end id |
| ChatStore.Store.RemoveFromChat | src/transport/endpoints/chats/add-remove-user.go:132-208 | the checks in order, then leaving, the message, and the closed period |
| ChatStore.Store.SetChatModerator | src/transport/endpoints/chats/moderators.go:38-94 | owner only, active other member only; a no-op for a moderator, else flag and message |
| ChatStore.Store.RemoveChatModerator | src/transport/endpoints/chats/moderators.go:157-213 | the same for dismissal |
| ChatStore.Store.StampFound | src/transport/endpoints/messages/delete-restore.go:104-121 | the loop over the found rows stamps exactly the selected ones |
| ChatStore.Store.HideFound | src/transport/endpoints/messages/delete-restore.go:122-136 | the loop adds exactly one deletion record per selected row |
| ChatStore.Store.MayDeleteAll | src/transport/endpoints/messages/delete-restore.go:83-94 | the check passes exactly when every found message is the caller's own and at most 24 hours old |
| ChatStore.Store.DeleteMessages | src/transport/endpoints/messages/delete-restore.go:65-143 | the whole call, with a peer or by row ids over the caller's chats, is the `Delete` step on this chat, rejections included |
| ChatStore.Store.RestoreMessage | src/transport/endpoints/messages/delete-restore.go:189-240 | the whole call, with a peer or by row id, is the `Restore` step on this chat, rejections of other people's messages included |
| ChatStore.Store.RefreshChatLastMessage | src/repo/chat/main.go:507-522 | the pointer becomes the largest local id without the deleted flag |
| ChatStore.Store.MarkChatAsRead | src/repo/chat/main.go:101-112 | the pointer is clamped, unless the cached pointer is 0, and only raised |
| ChatStore.Store.RaiseByIds | src/transport/endpoints/messages/read-mark.go:83-108 | the loop over message_ids computes `WithIds`, which ends at the largest number found (ChatReading.WithIdsExactly) |
| ChatStore.Store.MarkRead | src/transport/endpoints/messages/read-mark.go:41-124 | the branches, with a peer or by row ids, choose the target `ReadTarget` for this chat, the largest number reached (ChatReading.TargetExactly), and mark up to it |
| ChatStore.Store.BackgroundDeleteChat | src/transport/endpoints/core/handler.go:731-755 | both pointers of the member move to the newest local id |
| ChatHistory.StepShape | src/repo/chat/main.go:388-428 | every call but delete and restore leaves the message rows alone or appends exactly one fresh message |
| ChatHistory.NumberedNext | src/repo/chat/main.go:47-99 | every call keeps local ids equal to positions and the cached pointer inside them |
| ChatHistory.RowsGrowNext | src/models/db/db.go:83-85 | every call keeps row ids growing with local ids and never below them |
| ChatHistory.FlagsAgreeNext | src/transport/endpoints/messages/delete-restore.go:107-113 | every call keeps the deleted flag bits and the deletion time in agreement |
| ChatHistory.CachedNext | src/repo/chat/main.go:507-522 | every call keeps the cached pointer at the largest unflagged local id, posts and refreshes alike |
| ChatHistory.HidesInsideNext | src/transport/endpoints/messages/delete-restore.go:124-130 | personal deletions always refer to existing messages |
| ChatHistory.AuthorsCleanNext | src/transport/endpoints/messages/delete-restore.go:205-216 | a message deleted for all never also has a personal deletion by its author |
| ChatHistory.PairedNext | src/repo/chat/main.go:388-410 | messages and history events correspond one to one: same author, same kind of action, about the same user |
| ChatHistory.IdsHaveNoGap | src/repo/chat/main.go:47-99 | in every run local ids are exactly 1..n and the next is n + 1, although deletions move the pointer back |
| ChatHistory.PointerIsNewest | src/repo/chat/main.go:507-527 | in every run the cached pointer is the largest local id not deleted for all, 0 if none |
| ChatDeletion.ForAllHides | src/transport/endpoints/messages/delete-restore.go:76-121 | deleting for all takes exactly the selected messages from everybody's view |
| ChatDeletion.PersonalHides | src/transport/endpoints/messages/delete-restore.go:122-136 | deleting for oneself takes exactly the selected messages from the caller's view alone |
| ChatDeletion.RestoreUndoesDelete | src/transport/endpoints/messages/delete-restore.go:195-240 | in every reachable chat, delete then restore by one id gives back the whole state exactly when no visible message but the first named goes by that id |
| ChatDeletion.RestoreByRowUndoesDelete | src/transport/endpoints/messages/delete-restore.go:200-204 | in every reachable chat, delete then restore by row id without a peer gives back the whole state |
| ChatDeletion.OneNumberTwoMessages | src/transport/endpoints/messages/delete-restore.go:199-199 | a reachable chat in which one number names two visible messages and restoring it brings back only one |
| ChatDeletion.AuthorCanRestore | src/transport/endpoints/messages/delete-restore.go:204-231 | at any later time the author gets a message deleted for all back; the pointer moves up to it |
| ChatDeletion.FirstNamedIsFirst | src/transport/endpoints/messages/delete-restore.go:199-199 | the row restored is the first one the id names, in row-id order |
| ChatAnswers.SendExactly | src/transport/endpoints/messages/send.go:405-572 | in every run a message is accepted exactly from a user the history has in the chat whose reply, if any, names a message it may see; it is appended and only the sender's read pointer moves |
| ChatAnswers.SelectedExactly | src/transport/endpoints/messages/delete-restore.go:65-77 | the delete query finds exactly the messages that go by a listed id and that the caller may see by the history; without a peer only in a chat the caller is in |
| ChatAnswers.DeleteRefusedExactly | src/transport/endpoints/messages/delete-restore.go:60-94 | a delete call is refused exactly when it lists nothing, or wants to delete for all and reaches a message of somebody else or older than 24 hours |
| ChatAnswers.DeleteMarksExactly | src/transport/endpoints/messages/delete-restore.go:101-136 | after an accepted call exactly the messages reached are stamped with flags and time, or hidden for the caller; every other row is as it was |
| ChatAnswers.RestoreAcceptedExactly | src/transport/endpoints/messages/delete-restore.go:185-235 | a restore is accepted exactly when the first message named is hidden by the caller, or deleted for all and the caller's own |
| ChatAnswers.HiderCanRestore | src/transport/endpoints/messages/delete-restore.go:209-215 | at any later time a user gets back what it hid for itself, and nothing else changes |
| ChatAnswers.RestoreByOthers | src/transport/endpoints/messages/delete-restore.go:218-222 | a restore by somebody else than the author changes no row and nothing that anybody but the caller sees |
| ChatAnswers.OnlyTheAuthorUndeletes | src/transport/endpoints/messages/delete-restore.go:218-231 | in every run, if a message was deleted for all and no longer is, a restore by its author that named it came in between |
| ChatAnswers.EveryMessageHasItsCall | src/repo/chat/main.go:388-428 | in every run each message but the first was posted by one of the calls, at the time and with the action and user of that call |
| ChatAnswers.CreatedExactly | src/transport/endpoints/chats/create.go:22-52 | a chat is created exactly when nobody but the owner is listed twice; owner and listed users are in it |
| ChatPresence.CloseOwn | src/repo/chat/main.go:351-353 | closing leaves no open period and cuts the coverage of the user at the end id, inclusive |
| ChatPresence.TracksJoin | src/repo/chat/main.go:258-275 | a join, with or without history granted, keeps the periods in step with the history |
| ChatPresence.TracksLeave | src/transport/endpoints/chats/add-remove-user.go:187-208 | a removal keeps the periods in step with the history |
| ChatPresence.FollowsNext | src/repo/chat/main.go:196-317 | every call keeps member rows, period rows and history in agreement for every user |
| ChatPresence.SeesExactly | src/models/db/db.go:178-190 | in every run a member passes the period test for message n exactly when in the chat as it was posted or later joined with history granted; a user who never was a member is not limited |
| ChatPresence.OneOpenPeriod | src/repo/chat/main.go:265-275 | in every run active members are those the history has in the chat, each with exactly one open period, others with none |
| ChatPresence.VisibleExactly | src/models/db/db.go:171-205 | in every run and for every user the whole filter says: not deleted for all, not hidden by the user, and, if the user ever was a member, as the history allows; the system caller sees everything |
| ChatPresence.OutsiderSeesExactly | src/models/db/db.go:178-190 | a user who never was a member is limited by deletions alone |
| ChatSearch.SearchFindsExactly | src/transport/endpoints/messages/search.go:44-45 | over every run of chat and texts, search in a chat finds for any user, member or not, exactly the indexed messages with every query word that the filter should show, if all words have two bytes |
| ChatSearch.OutsiderFindsExactly | src/transport/endpoints/messages/search.go:136-137 | a user who never was in the chat finds every matching message of it, up to deletions |
| ChatRoles.KicksAgree | src/repo/chat/main.go:221-224 | the stored scan for a kick by somebody else agrees with the history |
| ChatRoles.ScanFindsLastRemover | src/repo/chat/main.go:221-224 | in every run the last kick message about a user was written by who removed that user last |
| ChatRoles.AddExactly | src/transport/endpoints/chats/add-remove-user.go:33-77 | adding succeeds exactly when the history rules allow the join |
| ChatRoles.JoinExactly | src/transport/endpoints/chats/invites.go:278-306 | joining by link changes nothing for a user in the chat, and otherwise succeeds exactly when the rules allow the user to join alone |
| ChatRoles.RemoveExactly | src/transport/endpoints/chats/add-remove-user.go:146-185 | removing succeeds exactly when the rules allow it: leaving, the owner, or a moderator against a plain member |
| ChatRoles.RoleExactly | src/transport/endpoints/chats/moderators.go:56-84 | a role call changes the role exactly when the rules allow, and is otherwise rejected or a no-op |
| ChatRoles.StepAllowed | src/transport/endpoints/chats/add-remove-user.go:126-208 | whatever any call records in the history was allowed there |
| ChatRoles.AlwaysSound | src/repo/chat/main.go:196-345 | every run keeps all row invariants, presence and roles, and has a lawful history |
| ChatRoles.AdminsAreAppointed | src/repo/chat/main.go:335-345 | in every run the owner keeps the admin flag; any other admin is active and was appointed by the owner, not removed or dismissed since |
| ChatRoles.KickedReturnOnlyByStaff | src/repo/chat/main.go:218-235 | in every run a user removed by somebody else is active again only through an add by the owner or a moderator of that moment |
| ChatRoles.AddNeedsNoMembership | src/transport/endpoints/chats/add-remove-user.go:33-77 | in every reachable chat, anybody may add a user who is not in it and was not removed by somebody else |
| ChatRoles.OutsiderJoinsAlone | src/transport/endpoints/chats/add-remove-user.go:53-72 | such a user may add themselves with the history granted and then passes the presence test for every message |
| ChatReading.TargetExists | src/transport/endpoints/messages/read-mark.go:50-119 | whatever a client names, the target is an existing local id |
| ChatReading.StartMarksNamed | src/transport/endpoints/messages/read-mark.go:54-55 | start_message_id marks up to the largest local id it names, be it a row id or a local id |
| ChatReading.StartMarksRows | src/transport/endpoints/messages/read-mark.go:56-71 | an id that names nothing lies beyond all local ids and marks the messages whose row ids it reaches |
| ChatReading.StartTargetExactly | src/transport/endpoints/messages/read-mark.go:50-81 | both together, with and without a peer: start_message_id chooses a number exactly if it reaches that one |
| ChatReading.WithIdsExactly | src/transport/endpoints/messages/read-mark.go:83-108 | the loop over message_ids ends at the largest of what it started from and the first messages its ids name, rows of other chats aside |
| ChatReading.TargetExactly | src/transport/endpoints/messages/read-mark.go:50-119 | the target is the largest number the call reaches by start_message_id, message_ids or as the whole conversation; there is none exactly if it reaches none |
| ChatReading.ReadCallLeaves | src/transport/endpoints/messages/read-mark.go:50-124 | in every run, what a member has unread after the call is what others posted that it may see beyond its pointer and beyond every number the call reaches |
| ChatReading.ReadCallExactly | src/transport/endpoints/messages/read-mark.go:39-43 | the call is refused exactly without a peer, a start and a list; else it changes the pointer of its caller alone |
| ChatReading.UnreadExactly | src/transport/endpoints/history/get.go:205-210 | in every run the unread count of a member is the number of messages of others beyond its pointer that it may see by the history |
| ChatReading.PointerNeverFalls | src/repo/chat/main.go:108-111 | over any run a read pointer never decreases and never passes the newest local id |
| ChatReading.PointersKept | src/repo/chat/main.go:277-297 | no call moves the pointers of another user; leaving and coming back keeps them, new member rows start at 0 |
| ChatReading.OwnCallsMove | src/repo/chat/main.go:101-112 | where a member's own sends, deletions of the conversation and mark-read calls move its pointers, clamping included |
| ChatReading.MarkingCounts | src/repo/chat/main.go:101-112 | clamping never shows: what stays unread is what lies beyond the target or the older pointer |
| ChatReading.MarkAllLeavesNothing | src/transport/endpoints/messages/read-mark.go:110-124 | marking the whole conversation leaves zero unread, whatever else the call names |
| ChatReading.SendCounts | src/transport/endpoints/messages/send.go:562-572 | a message raises every other active member's unread count by exactly one and sets the sender's to zero |
| ChatReading.DeleteChatHides | src/transport/endpoints/core/handler.go:731-755 | deleting the conversation hides exactly the messages existing then, from that user alone |
| ChatReading.ReceiptCounts | src/transport/endpoints/core/handler.go:336-359 | the read receipt names another author's message and its unread count is the count beyond the marked id |
| SendLock.RunOk | src/transport/endpoints/messages/send.go:420-443 | every interleaving keeps one owner per key and one message per key |
| SendLock.AtMostOneMessage | src/transport/endpoints/messages/send.go:420-443 | at most one message is committed per sender, peer and random id |
| SendLock.SuccessReturnsTheMessage | src/transport/endpoints/messages/send.go:422-430 | every success returns the id of that message |
| SendLock.RetryLearnsTheId | src/transport/endpoints/messages/send.go:422-430 | once a call has returned its message id, every later call under the key is answered with that id by its GET, whatever interleaves |
| SendLock.GetExactly | src/transport/endpoints/messages/send.go:422-430 | GET turns a call away exactly while another one owns the key, and answers with an id exactly if that message was posted and nobody owns the key |
| SendLock.SetNXExactly | src/transport/endpoints/messages/send.go:432-435 | SETNX gives the key to a call exactly when nobody owns it and nothing was posted under it |
| SendLock.LoneCallSends | src/transport/endpoints/messages/send.go:420-604 | after any run a call alone on a free key posts one message and returns its id |
| SendLock.FailedCallFreesKey | src/transport/endpoints/messages/send.go:438-443 | a call whose transaction fails posts nothing and leaves the key as free as before |
| SendLock.OwnerGoesOn | src/transport/endpoints/messages/send.go:438-604 | in every run the owner of a key can take its next step, and returns the message it committed |
| SendLock.ReleasesOwnLock | src/transport/endpoints/messages/send.go:439-443 | the deferred DEL removes the caller's own lock, nothing else, and nothing was posted under it |
| SendLock.NeverStuck | src/transport/endpoints/messages/send.go:586-601 | once all calls have returned, a key holds the id of its message or does not exist |
| HistoryWindow.GetHistory | src/transport/endpoints/history/get.go:62-131 | the branches on offset and direction select the page and the total |
| HistoryWindow.AnchorPosition | src/transport/endpoints/history/get.go:93-131 | with offset -k the anchor is at place min(k, b) - 1 and the first message beyond it at min(k, b), on the page exactly when that fits the count |
| HistoryWindow.AnchorIsStart | src/transport/endpoints/history/get.go:93-113 | a visible start message is the anchor itself |
| HistoryWindow.PassedPrefix | src/transport/endpoints/history/get.go:99-106 | the messages before the anchor are exactly those at or before the start id in reading order |
| HistoryWindow.PagesTile | src/transport/endpoints/history/get.go:114-131 | with non-negative offsets consecutive pages tile the window, each message once |
| HistoryWindow.PageContinues | src/transport/endpoints/history/get.go:114-131 | a page at any offset goes on where the window before it ends; without a start id a negative offset reads from the beginning |
| HistoryWindow.WindowMembers | src/transport/endpoints/history/get.go:114-120 | the window is exactly the visible messages from the start id on |
| AttachmentWalk.TypeEnd | src/transport/endpoints/history/getAttach.go:132-138 | the cut is the first digit or minus sign, 0 if there is none |
| AttachmentWalk.TypeOfString | src/transport/endpoints/history/getAttach.go:130-141 | the type of a string of letters followed by a digit or minus sign is the lower-cased letters |
| AttachmentWalk.TypeOfWholeString | src/transport/endpoints/history/getAttach.go:139-144 | a string that starts so, or has neither, is its own type |
| AttachmentWalk.MatchesExactly | src/transport/endpoints/history/getAttach.go:154-163 | a string matches by the part before the numbers and an object by its type, if that is the media type asked for or its other name |
| AttachmentWalk.HitsInOrder | src/transport/endpoints/history/getAttach.go:125-175 | the hits of a message come attachment by attachment, each under the row id or, without one, the number of the message |
| AttachmentWalk.AppendMatches | src/transport/endpoints/history/getAttach.go:118-173 | the inner loop adds exactly the matching attachments of one row |
| AttachmentWalk.FillPage | src/transport/endpoints/history/getAttach.go:98-178 | the outer loop takes rows until the page is full |
| AttachmentWalk.GetHistoryAttachments | src/transport/endpoints/history/getAttach.go:68-187 | page and next_from of one request |
| AttachmentWalk.NextMovesOn | src/transport/endpoints/history/getAttach.go:180-186 | next_from moves strictly forward and stays inside the list, so a walk ends |
| AttachmentWalk.WalkIsComplete | src/transport/endpoints/history/getAttach.go:88-187 | the concatenated pages are exactly the matching attachments, in order, each once |
| AttachmentWalk.PageIsTight | src/transport/endpoints/history/getAttach.go:175-178 | a page is never cut inside a message and never goes on once full |
| AttachmentWalk.PageEndsExactly | src/transport/endpoints/history/getAttach.go:88-195 | a page that is not full has looked at all rows left or five times the count, 500 at most; it is the last exactly when no row was left, or it is not full and fewer rows were left |
| NestedMessages.PreloadNestedMessages | src/models/db/message_vk.go:130-195 | the loop fills the cache as the round-by-round function does, from any store |
| NestedMessages.PreloadReaches | src/models/db/message_vk.go:144-192 | if no number followed within reach leads to two rows, the cache holds everything a renderer follows there |
| NestedMessages.RenderSame | src/models/db/message_vk.go:322-344 | two caches that hold what is reached render alike, in both styles, reference cycles included |
| NestedMessages.PreloadIsEnough | src/models/db/message_vk.go:130-195 | under that condition on what is reached, d rounds render any first message to depth d as from the whole store, in both styles |
| NestedMessages.PreloadIsExact | src/models/db/message_vk.go:175-192 | the rendering equals that from the whole store in every row order exactly under that condition |
| NestedMessages.ReplyFromAnotherChat | src/models/db/message_vk.go:180-191 | a store of three rows in which the first message of another chat is rendered under a reply |
| NestedMessages.PreloadedHeight | src/models/db/message_vk.go:457-476 | the rendered tree has height at most the depth, clashes and cycles included |
| NestedMessages.RenderedInOrder | src/models/db/message_vk.go:322-344 | the forwards are rendered in the order of the column, one where it stands and none for a number not cached; the reply beside them |
| NestedMessages.RenderedOneForOne | src/models/db/message_vk.go:329-344 | forwards that are all cached are rendered one for one, each to one depth less |
| NestedMessages.ToVKApiStruct | src/models/db/message_vk.go:232-240 | rendering one message, shortcut included, is rendering it from its preload, and from the whole store if what it reaches is clear |
| NestedMessages.ToVKApiStructLegacy | src/models/db/message_vk.go:370-378 | the legacy form, whose shortcut looks at the forwards alone |
| NestedMessages.RootTarget | src/models/db/message_vk.go:136-183 | the preload of one message caches a number it points at exactly when a row goes by it |
| NestedMessages.LegacySingleExactly | src/models/db/message_vk.go:370-378 | the legacy form equals the rendering from the preload exactly when there is no reply to show or no row goes by its number |
| NestedMessages.LegacyDropsReply | src/models/db/message_vk.go:371-373 | a store of two rows in which the reply is not rendered, at any depth |
| SearchIndex.GenerateBlindIndexes | src/repo/search/indexations.go:31-50 | one row per distinct lower-cased word of at least two bytes, none twice |
| SearchIndex.FieldsAreRuns | src/repo/search/indexations.go:32-32 | the words of a text are its longest runs of non-space characters, all of them and in order |
| SearchIndex.LongExactly | src/repo/search/indexations.go:38-38 | a word is long enough unless it is empty or one ASCII character |
| SearchIndex.SearchMessages | src/repo/search/indexations.go:52-83 | the counting query over the deduplicated hashes of all query words |
| SearchIndex.PrepareHashes | src/repo/search/indexations.go:85-97 | the distinct hashes of the query words of at least two bytes |
| SearchIndex.CountingMeansAll | src/repo/search/indexations.go:71-76 | having as many distinct matches as hashes is having them all |
| SearchIndex.MessageTable.SendMessage | src/transport/endpoints/messages/send.go:575-582 | message and index rows are written together |
| SearchIndex.MessageTable.Edit | src/transport/endpoints/messages/edit.go:105-121 | text and index rows are replaced together, or neither |
| SearchIndex.IndexFollowsText | src/transport/endpoints/messages/edit.go:105-121 | over every run the rows of a sent or edited message are exactly the kept words of its current text; a service message never edited has none |
| SearchIndex.LastTextCounts | src/transport/endpoints/messages/edit.go:105-121 | the last send, service message or edit with a text decides a message's chat, its text and whether it is indexed |
| SearchIndex.SearchIsMatching | src/repo/search/indexations.go:52-83 | for a query of words of two bytes or more, the counting query finds exactly the indexed messages of the chat with every word |
| SearchIndex.SearchAgreesExactly | src/repo/search/indexations.go:52-83 | that condition on the query is necessary and sufficient |
| SearchIndex.MemberSearchFindsExactly | src/transport/endpoints/messages/search.go:93-101 | the index query over a set of chats finds exactly the indexed messages of those chats with every query word of two bytes or more |
| SearchIndex.GlobalSearchFindsExactly | src/transport/endpoints/messages/search.go:46-55 | the system caller's index query does so over all chats |
| SearchIndex.UnindexedNeverFound | src/repo/chat/main.go:402-413 | a service message, which is stored without index rows, is found by no search until it is edited |
| ChatId.ParseFormat | src/repo/chat/main.go:475-505 | parsing a printed number gives it back, over the whole 64-bit range |
| ChatId.DerivesThePeer | src/repo/chat/main.go:430-505 | parsing the printed id gives back the peer, for every nonzero pair |
| ChatId.BothSidesAgree | src/repo/chat/main.go:430-451 | both sides of a dialogue print the same id |
| ChatId.DifferentPairsDiffer | src/repo/chat/main.go:430-451 | different dialogues print different ids, and none prints a group chat's |
| ChatId.CommunitiesDisagree | src/repo/chat/main.go:436-444 | two communities print the same id only if they are the same |

## Left out

- HTTP, routing, parameter parsing, JSON responses, per-version response forms, the `results` map of a delete call.
- MySQL and Redis themselves: isolation levels, connection errors, key expiry, the 15 second life of the send lock, scores above 2^53.
- Conversations other than one group chat in the chat model: dialogues share posting and deletion but have no roles or periods that change.
- Repeated payloads at the grain of single commands: `InterleavedPushes` takes payloads to be different.
- The system caller (user 0) in the theorems about deletion and unread counts: it bypasses the visibility filter, so they ask for a nonzero user.
- Matches by conversation title in the searches over all chats.
- The effect of a call without a peer on other chats: the model follows one chat and takes their answer as a parameter.
- The per-member `last_message_id`: a post updates only the sender's, so it has no invariant to state.
- im.sendAction, which can write any action name, and migrated chats, whose cached pointer may rest on a deleted message.
- Permissions of a chat (who may change title, photo, pin), invite-link limits, mutes, mentions, truncation, the online tracker.
- Events whose type is not in the registry are dropped when read; delivery is stated for decodable ones.
- Pushes that no notify follows, and notify across several server instances.
- The choice of the timeout branch by `select` while a token is present: the timeout claim is for an empty channel.
- The PTS counter of the long-poll answers.
- A send with random id 0, which takes no lock; the local id a cached answer repeats is the message id, as in the code.
- Resolving start_message_id of the history page to a local id.
- Attachment parsing from text: `AttachmentWalk` starts from the parsed list.
- AES, HMAC and invite codes: library code.
