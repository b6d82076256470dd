# Messenger backend: model and proofs

The backend keeps chats, messages, calls and polls in a few tables and answers HTTP and WebSocket
requests over them; several server instances share a Redis bus. This project models the application
logic of that backend in Dafny and proves properties of it. Tables are maps, sets or sequences of rows;
commands that change rows or in-process state are methods of classes, proved against functions or
relations on values; what those mean is stated by lemmas. Commands that run concurrently are step
machines, and their theorems hold after every sequence of steps.

| module | what it models |
|---|---|
| `Common`, `Orders` | options, results, stripping white space; sorting a set of rows by a strict order |
| `PrivateChats`, `PrivateChatEnds`, `PairKeys` | creating private chats with any number of requests in flight, the advisory lock, the reason of every reply and failure, the pair key |
| `IdempotentSend`, `SendEnds` | sending with a client message id and any number of retries in flight, and why each send ends as it does |
| `Membership`, `Ownership` | creating chats, adding, leaving, removing, deleting an account; what these keep over whole runs: one owner per chat, one chat per pair |
| `WsManager`, `RealtimeBus`, `BusRuns` | chat and inbox sockets of one instance; one event over many instances; the registries of many instances over whole runs |
| `RateLimit` | the sliding window in memory and the fixed window in Redis |
| `Keyset` and `ChatListing`, `ChatListShows`, `UserSearch`, `CallsListing`, `History` | keyset paging in general and its four uses; what an entry of the chat list shows |
| `Projection`, `MessageShows`, `Reactions`, `MessageQueries` | a message as a viewer sees it, alone and in a history page |
| `ChatTables`, `ReadTracking` | messages and memberships, read pointers, unread counters |
| `Mentions` | scanning for names, resolving them to members, storing them |
| `GroupRaces` | leaving, removing and adding in one group with any number of requests in flight |
| `Polls`, `PollRuns` | options, votes, closing, the tally; what holds of polls over whole runs of all these commands, and when a poll goes |
| `PollRaces` | the votes of one poll with any number of requests in flight |

Text handling that depends on Unicode (which characters are white space or word characters, case
folding, collation), the digest behind lock keys, time, the set of failing sends and the storage URL
signer are parameters, and so is whether the database checks foreign keys at once (PostgreSQL does,
SQLite does not unless told to). Unordered queries return any matching row. User, chat, message and
poll ids are never given out twice.

`PollRuns` and `ReadTracking` take `ON DELETE CASCADE` and `ON DELETE SET NULL` as carried out, which a
database does only where it enforces foreign keys; in the terms of `Ownership` every account deletion of
`PollRuns` meets a database that checks keys. They say nothing about a database that does not.

Assumptions of the concurrent models: the second lookup of a private chat sees every row that was
committed before it, as under PostgreSQL's default isolation level; in `GroupRaces` what a request reads is
one step and what it writes another, in `PollRaces` checking, deleting and committing are three; in the runs
of `WsManager` a connect, a disconnect or a whole broadcast is one step, while `RealtimeBus` interleaves the
single sends of any number of broadcasts. In `BusRuns` handling an envelope is one step, and the payloads of
different events differ.

## What the proofs found

* The insert of a private chat is flushed outside the handler that catches a unique violation. Without
  PostgreSQL there is no advisory lock, and two first requests of a pair can make one of them fail
  there; with the lock none can (`PrivateChats.ViolationNeedsMissingLock`).
* The lookup of a private chat runs before the users are checked. The chat it replies has the two users
  as members if and only if both exist (`PrivateChats.OneChatPerPair`, `Ownership.PrivateReplyMeans`);
  where foreign keys are not checked, a deleted account can leave a keyed row without members that is then
  replied (`Ownership.UncheckedReplyMayBeEmpty`).
* Account deletion clears `created_by` only at the commit, after the user row is deleted. Where foreign keys
  are checked at once it fails, and everything is rolled back, if and only if a chat row still names the
  user then (`Ownership.StuckIff`); it is sure to succeed, whatever the order of the memberships, if and
  only if every chat the user created is a group that keeps a member (`Ownership.DeletableIff`), and sure to
  fail exactly as `Ownership.HopelessIff` says: a user who asked for a private chat and is in no group cannot
  delete the account while the other is there (`Ownership.CreatorCannotDelete`).
* A poll goes with its author's account, but also with its chat: when the other member of a private chat
  deletes the account, or the last member of a group goes (`PollRuns.PollStaysIff`,
  `PollRuns.PrivatePollStaysIff`, `PollRuns.OtherAccountTakesPoll`).
* No lock is taken between reading and writing a group's owner. A group can end with a creator who is no
  member, exactly when a request writes after the ownership has moved (`GroupRaces.OwnedThroughoutIff`,
  `GroupRaces.OwnerKeptIff`, `GroupRaces.BothLeave`).
* Nor between deleting and inserting votes. Two votes of a user at once can both stand in a single-choice poll
  (`PollRaces.ChoiceKeptIff`, `PollRaces.BothChoose`), and a vote checked before the closing still counts
  after it (`PollRaces.ClosedIsFinalIff`).
* Account deletion deletes messages without repointing read pointers. A member keeps the right unread
  messages if and only if the pointer is not at a deleted message or nothing older is from a third
  user (`ReadTracking.AccountDeletionRecounts`, `ReadTracking.ReadMessageTurnsUnread`).
* A client message id that is blank but not empty is stored as the empty string. It is not looked up,
  yet it is unique: the sender's second such message fails (`IdempotentSend.InsertFailsOnlyOnBlankId`,
  `IdempotentSend.SecondBlankIdFails`).
* After a race the reply may be a message of another chat. All runs are safe if and only if the uses of
  the client message id agree on a chat (`IdempotentSend.RepliesAgreeIffChatsDo`).
* The chat list shows the message with the largest id, sorts by the latest time, and the response to
  asking for a private chat shows the latest message by time. The three agree if and only if the largest
  id carries the latest time (`ChatListing.FormsAgreeIff`, `ChatListing.ShownTimeIsSortKeyIff`,
  `ChatListing.LaterIdEarlierTime`).
* The Redis limiter accepts up to `2 * max_attempts - 1` hits in one window, and reaches that bound
  (`RateLimit.FixedWindowBound`, `RateLimit.FixedWindowIsSharp`).
* A mention counts only if the first spelling of the name in the text is the user's own:
  `@bo @Bo` does not mention `Bo` (`Mentions.FirstSpellingDecides`, `Mentions.SecondSpellingIsMissed`).
* The promotion branch of removing a member cannot run, and removing never deletes a chat
  (`Ownership.RemoveTakesOneRow`).
* Connecting the very same socket again lists it twice (`WsManager.ConnectMeans`), and a disconnect
  that removes nothing is still counted while the chat has connections (`WsManager.LateDisconnectIsCounted`).

## Model

| member | source | states |
|---|---|---|
| `PrivateChats.OneChatPerPair` | backend/app/application/chats/chat_commands.py:119-213 | after any interleaving of requests, from any tables with at most one chat per pair, memberless rows included: a pair has at most one private chat; every successful request replies the chat of its pair, with exactly the pair as members if and only if both users exist; all successful requests of a pair reply the same chat |
| `PrivateChats.ReplyMayHaveNoMembers` | backend/app/application/chats/chat_commands.py:138-147 | from a keyed row without members, asking for the missing user replies that row |
| `PrivateChats.RunKeepsInvariant` | backend/app/application/chats/chat_commands.py:17-71 | after any steps: good chats, uncommitted inserts with different keys and ids, and on PostgreSQL no two requests past the lock with the same lock key, nothing to find for a request past its second lookup, no unique violation |
| `PrivateChats.FlushKeeps` | backend/app/application/chats/chat_commands.py:175-183 | the flushed insert keeps that invariant |
| `PrivateChats.CommitKeeps` | backend/app/application/chats/chat_commands.py:185-197 | the commit that makes the chat visible keeps that invariant |
| `PrivateChats.RepliesAreFinal` | backend/app/application/chats/chat_commands.py:138-147 | whatever other requests do later, a reply and all chats of its time stay as they are |
| `PrivateChats.ViolationNeedsMissingLock` | backend/app/application/chats/chat_commands.py:34-41 | some run makes an insert violate the unique key exactly when the database is not PostgreSQL, whichever lock keys collide |
| `PrivateChats.SomeoneProgresses` | backend/app/application/chats/chat_commands.py:34-41 | while a request is unfinished some request can take its next step: no deadlock |
| `PrivateChatEnds.EndsIff` | backend/app/application/chats/chat_commands.py:128-213 | in every interleaving each end of a request has exactly its reason among the events: a reply is a row that one of its three lookups returned or that it committed itself; a bad request names not exactly one other user; users are missing when one of the two does not exist; the insert met the key; the request's own commit failed and nothing was found then; or it was aborted |
| `PrivateChatEnds.LookupIsAnswered` | backend/app/application/chats/chat_commands.py:138-147 | a lookup that returns a row, the first, the second or the third, ends the request with that row |
| `PrivateChatEnds.ServedIff` | backend/app/application/chats/chat_commands.py:128-213 | on PostgreSQL a finished request for one existing other user is served, if and only if it was not aborted and did not find nothing after its own failed commit |
| `PrivateChatEnds.ArrivesAs` | backend/app/application/chats/chat_commands.py:128-136 | a request is for its caller and the one other user among the ids it names |
| `PairKeys.KeyIdentifiesPair` | backend/app/application/chats/chat_commands.py:17-24 | two pair keys are equal if and only if the unordered pairs are |
| `PairKeys.KeyIs` | backend/app/application/chats/chat_commands.py:17-23 | the key is the two ids in decimal, the smaller first, with a colon between, whoever asks |
| `PairKeys.DecimalReadsBack` | backend/app/application/chats/chat_commands.py:21-24 | the decimal text of an id reads back as the id and holds no colon |
| `IdempotentSend.RetriesStoreOneMessage` | backend/app/application/messages/commands.py:92-156 | however retries interleave, one row per sender and client id is stored, all retries reply its id, no message is notified twice, an integrity error needs a blank id, and only a raced reply may be from another chat |
| `IdempotentSend.RunKeepsInvariant` | backend/app/models/message.py:51-56 | the unique constraint and the good state of every request hold after any steps |
| `IdempotentSend.InsertFailsOnlyOnBlankId` | backend/app/application/messages/commands.py:122-135 | insert and re-read fail exactly for a second blank id of the sender, reply an older row exactly when the id is in use, and store otherwise |
| `IdempotentSend.BlankIds` | backend/app/application/messages/commands.py:92-95 | an id becomes the empty string exactly when it is white space but not empty, none exactly when it is missing or empty, and otherwise loses only white space at its ends |
| `IdempotentSend.RacedReplyMayNameAnotherChat` | backend/app/application/messages/commands.py:125-135 | for any sender, non-blank id and two different chats, two sends can end with a reply from the other chat |
| `IdempotentSend.OneChatRepliesAgree` | backend/app/application/messages/commands.py:95-135 | while a sender uses an id for one chat only, every reply for it is a message of the request's chat |
| `IdempotentSend.RepliesAgreeIffChatsDo` | backend/app/application/messages/commands.py:95-135 | all runs that use the id in the given chats reply from the request's own chat if and only if the given chats are one |
| `IdempotentSend.SecondBlankIdFails` | backend/app/application/messages/commands.py:122-128 | for any sender, two blank ids and any chats, a run whose second send fails on the unique constraint |
| `SendEnds.EndsIff` | backend/app/application/messages/commands.py:92-156 | in every interleaving each end of a send has exactly its reason among the events: the check found the message in the same chat, or in another, the send stored and announced it, it lost the race and read the winner's row, it had no id to read by, or it was aborted |
| `SendEnds.CheckDecides` | backend/app/application/messages/commands.py:95-107 | a checked request whose id is in a row of its sender is answered with that row if the row is of its chat, and refused otherwise |
| `SendEnds.OneChatIsNeverRefused` | backend/app/application/messages/commands.py:95-107 | while a sender uses an id for one chat only, no request with it is refused for another chat |
| `SendEnds.RetryEndsIff` | backend/app/application/messages/commands.py:95-107 | a retry that arrives when its message is stored and is carried through replies that message, or is refused if the message is of another chat; it ends so if and only if it is not aborted |
| `SendEnds.RetryAfterSuccess` | backend/app/application/messages/commands.py:95-107 | a retry after a success of the same sender, id and chat, carried through, replies the same message |
| `SendEnds.NotifiedIff` | backend/app/application/messages/commands.py:149-154 | the others are notified of exactly the messages whose own send came that far |
| `Membership.ChatStore.CreateChat` | backend/app/application/chats/chat_commands.py:119-193 | each refusal in its order with the tables unchanged; an existing private chat of the pair is replied, otherwise the chat and one membership per user are inserted, the caller as owner |
| `Membership.ChatStore.FindPrivateChatBetween` | backend/app/application/chats/chat_commands.py:44-71 | returns a chat with the key of the pair, else a private chat of exactly the pair, and none exactly when there is neither |
| `Membership.ChatStore.StartChat` | backend/app/application/chats/chat_commands.py:149-193 | missing users, then a blank group title, are refused; otherwise the chat is inserted |
| `Membership.ChatStore.InsertChat` | backend/app/application/chats/chat_commands.py:175-193 | the loop over the member ids adds exactly one row per user, owner for the creator |
| `Ownership.CreationSucceedsIff` | backend/app/application/chats/chat_commands.py:119-173 | a group is created exactly if its title has a character that is not white space and all members exist; a private chat is replied exactly if one other user is named and the chat is there or both exist; a refusal changes nothing |
| `Ownership.CreationRefusedBecause` | backend/app/application/chats/chat_commands.py:120-173 | each refusal has its own condition, and the missing users are exactly those asked for who do not exist |
| `Ownership.AskingAgainFindsIt` | backend/app/application/chats/chat_commands.py:128-147 | a private chat asked for again, from either side, is the one asked for before, and nothing is inserted |
| `Ownership.CreatedIsSound` | backend/app/application/chats/chat_commands.py:175-193 | a new chat has exactly the given members and the creator as owner, leaves every other chat as it is, and keeps one owner per chat |
| `Membership.ChatStore.AddChatMember` | backend/app/application/chats/membership_commands.py:42-89 | each refusal in its order, otherwise one member row more |
| `Ownership.AddedIsSound` | backend/app/application/chats/membership_commands.py:49-89 | succeeds exactly for a group, a member as caller and an existing user who is not a member; then the roster grows by that user, who is no owner; keeps one owner per chat |
| `Membership.ChatStore.LeaveGroupChat` | backend/app/application/chats/membership_commands.py:101-133 | each refusal with the tables unchanged; otherwise the new tables, including the promotion of the next owner and, exactly if nobody is left, the deletion of the chat and all its messages |
| `Ownership.LeftIsSound` | backend/app/application/chats/membership_commands.py:114-133 | exactly the caller leaves the roster; if the caller owned the chat the smallest remaining id owns it, otherwise the owner stays; the chat goes exactly with its last member; other chats are untouched |
| `Membership.ChatStore.RemoveGroupMember` | backend/app/application/chats/membership_commands.py:136-179 | each refusal in its order with the tables unchanged, otherwise the removal as written, messages included |
| `Membership.ChatStore.DropMember` | backend/app/application/chats/membership_commands.py:171-178 | deletes the row, promotes if it was the creator's, deletes the chat with its messages if empty |
| `Membership.ChatStore.PromoteNextGroupOwner` | backend/app/application/chats/membership_commands.py:26-39 | the smallest member id becomes creator and owner; nothing happens in an empty chat |
| `Membership.ChatStore.DeleteChatIfEmpty` | backend/app/application/chats/membership_commands.py:17-23 | the chat row goes, with exactly the messages of the chat, when no member is left, and only then |
| `Ownership.RemoveTakesOneRow` | backend/app/application/chats/membership_commands.py:148-178 | in any tables a successful removal takes exactly the target's row: it never promotes and never deletes a chat |
| `Ownership.RemovedIsSound` | backend/app/application/chats/membership_commands.py:143-169 | a removal succeeds exactly for the owner of a group and another member of it, and keeps one owner per chat |
| `Ownership.GroupRefusals` | backend/app/application/chats/membership_commands.py:49-53 | adding, leaving and removing ask for the chat, then for a group, then for membership, each refusal exactly on its condition |
| `Ownership.MemberRefusals` | backend/app/application/chats/membership_commands.py:55-169 | each further refusal of adding and of removing exactly on its condition |
| `Membership.ChatStore.DeleteMyAccount` | backend/app/api/users_router.py:151-212 | for some order of the user's chats the outcome is exactly that of the rounds in this order: committed, or rolled back because a chat row still names the user and keys are checked at once; if committed, exactly the user's messages and those of the chats nobody is left in are gone, else none |
| `Membership.ChatStore.FinishDeletion` | backend/app/api/users_router.py:206-211 | clearing the creators is pending when the user row is deleted; refused and rolled back exactly if keys are checked and a row names the user, otherwise creators cleared, pending deletions carried out but for rows added again, user gone |
| `Membership.ChatStore.ClearCreators` | backend/app/api/users_router.py:206-208 | the loop prepares the cleared row of exactly the chats that name the user, and withdraws their pending deletions |
| `Membership.ChatStore.LeaveForGood` | backend/app/api/users_router.py:168-204 | one round: a private chat loses all its members and messages; a group loses the user, with a new owner if the user was the creator, and its messages exactly if nobody is left |
| `Membership.RoundEmpties` | backend/app/api/users_router.py:168-204 | in any order, a round takes the messages of its chat along exactly if nobody is left in the chat once the account is gone |
| `Membership.OneLessOpen` | backend/app/api/users_router.py:155-167 | every membership met by the loop has its chat and was not met before, and each round leaves strictly fewer memberships |
| `Membership.RoundKeepsProgress` | backend/app/api/users_router.py:168-204 | a round settles its chat for good and touches no other |
| `Ownership.DeletionMeans` | backend/app/api/users_router.py:155-212 | a successful deletion leaves memberships, roles and chats with members exactly as specified, memberless rows only without a creator and none where keys are checked; a failed one changes nothing |
| `Ownership.StuckIff` | backend/app/api/users_router.py:206-210 | after the loop a chat row names the user if and only if one did beyond the memberships, or a chat the user created lost its last member and no group came after it |
| `Ownership.DeletableIff` | backend/app/api/users_router.py:155-211 | where keys are checked, deletion succeeds in every order if and only if every chat the user created is a group that keeps a member |
| `Ownership.HopelessIff` | backend/app/api/users_router.py:155-211 | where keys are checked, deletion fails in every order if and only if a row names the user beyond the memberships, or the user created a chat nobody is left in and is in no groups but such ones |
| `Ownership.CreatorCannotDelete` | backend/app/api/users_router.py:206-211 | a run from empty tables in which the deletion is refused in every order: two users chat privately and the one who asked deletes the account |
| `Ownership.AccountDeletedIsSound` | backend/app/api/users_router.py:155-211 | afterwards the user and all its memberships are gone, and every chat with members has its creator as only owner |
| `Ownership.AccountDeletedMeans` | backend/app/api/users_router.py:176-208 | private chats of the user are empty, groups keep exactly the others, other chats are untouched, and no chat with members has lost its creator |
| `Ownership.RunIsSound` | backend/app/application/chats/membership_commands.py:17-179 | after any run of sign-ups, creations, additions, leavings, removals and account deletions the foreign keys hold and every chat with members is owned by its creator alone |
| `Ownership.OneOwnerPerChat` | backend/app/application/chats/chat_commands.py:185-193 | after any run a chat that has members has exactly one owner, its creator |
| `Ownership.RunFits` | backend/app/application/chats/chat_commands.py:119-193 | after any run: a private chat has the key of two users and the two or nobody as members, the two if both exist; no two chats have one key; groups have none |
| `Ownership.PrivateReplyMeans` | backend/app/application/chats/chat_commands.py:138-158 | after any run the lookup of a pair finds at most one chat, and a replied private chat has exactly the two users as members if and only if both exist |
| `Ownership.AskingAgain` | backend/app/application/chats/chat_commands.py:128-147 | after any run, asking again from either side replies the same chat and inserts nothing |
| `Ownership.CheckedRunHasNoEmptyChats` | backend/app/api/users_router.py:193-211 | in runs whose deletions meet checked keys no chat row without members is left |
| `Ownership.CheckedReplyHasBoth` | backend/app/application/chats/chat_commands.py:138-158 | in such runs a replied private chat always has its two members |
| `Ownership.UncheckedReplyMayBeEmpty` | backend/app/api/users_router.py:168-211 | without the check, a run of two sign-ups, a private chat and a deletion after which the chat is replied with nobody in it |
| `GroupRaces.WritingKeepsOwnerIff` | backend/app/application/chats/membership_commands.py:114-133 | from a group whose creator is its only owner, what a request writes keeps it so if and only if the ownership has not moved, since the request read, to a member whose row goes while others stay, or to one who is neither the leaver nor the heir |
| `GroupRaces.OwnedThroughoutIff` | backend/app/application/chats/membership_commands.py:42-179 | in every interleaving the creator is the only owner throughout, and the chat gone with its last member, if and only if no request writes after being overtaken so |
| `GroupRaces.OwnerKeptIff` | backend/app/application/chats/membership_commands.py:101-179 | all interleavings keep the owner if and only if a request that has read is finished before the next one reads |
| `GroupRaces.BothLeave` | backend/app/application/chats/membership_commands.py:114-133 | an interleaving that leaves a group with a creator who is no member: the owner hands over to a member whose own leave has read already |
| `GroupRaces.UndisturbedAgrees` | backend/app/application/chats/membership_commands.py:42-179 | a request that reads and writes undisturbed does exactly what the sequential command does |
| `WsManager.ConnectionManager.Connect` | backend/app/core/ws_manager.py:77-90 | the loop over the snapshot evicts the user's other sockets, the new one is appended, the counters follow |
| `WsManager.ConnectionManager.Disconnect` | backend/app/core/ws_manager.py:92-104 | every entry of the socket goes, an empty list goes with its key, the counters follow |
| `WsManager.ConnectionManager.SendJsonSafe` | backend/app/core/ws_manager.py:106-111 | one attempt; a failing socket is counted and disconnected |
| `WsManager.ConnectionManager.Broadcast` | backend/app/core/ws_manager.py:113-116 | the registry, counters and attempts after sending to the snapshot |
| `WsManager.ConnectionManager.BroadcastPersonalized` | backend/app/core/ws_manager.py:118-126 | the same with one message per user |
| `WsManager.ConnectionManager.BroadcastToOthers` | backend/app/core/ws_manager.py:128-138 | the same, skipping one user |
| `WsManager.ConnectMeans` | backend/app/core/ws_manager.py:79-90 | the list is the old one without the user's other sockets, in order, and the new socket last; one socket per user holds if and only if this socket was not listed; counter and entries stay right |
| `WsManager.BroadcastMeans` | backend/app/core/ws_manager.py:106-138 | every eligible socket is attempted exactly once with its user's message, nobody else; exactly the failed sockets leave, the rest keep their order; errors are counted |
| `WsManager.DisconnectedLost` | backend/app/core/ws_manager.py:92-104 | exactly this socket leaves this chat, no empty entry appears and the counter drops by what was removed |
| `WsManager.TotalMoves` | backend/app/core/ws_manager.py:88-104 | the sum over all lists moves with the one list that changed |
| `WsManager.EventCounts` | backend/app/core/ws_manager.py:77-138 | connecting closes exactly the user's other sockets and counts one connect and a disconnect for each; a broadcast counts a disconnect per failed send; a disconnect counts while the chat has connections |
| `WsManager.EventMeans` | backend/app/core/ws_manager.py:77-138 | after any event a connection is listed exactly if it just connected, or was listed and the event is none of the three that remove it |
| `WsManager.RunIsValid` | backend/app/core/ws_manager.py:72-104 | in every run with fresh sockets: one socket per user and chat, none twice, no empty entry, the counter is the sum of the lengths |
| `WsManager.LateDisconnectRemovesNothing` | backend/app/core/ws_manager.py:92-104 | the disconnect of a replaced socket, at any later point of any run, removes nothing |
| `WsManager.LateDisconnectIsCounted` | backend/app/core/ws_manager.py:92-101 | a disconnect that removes nothing adds to the total exactly while the chat has connections |
| `WsManager.InboxConnectionManager.Connect` | backend/app/core/ws_manager.py:31-41 | the new socket takes the user's place, a different old one is closed, the counters follow |
| `WsManager.InboxConnectionManager.Disconnect` | backend/app/core/ws_manager.py:43-47 | only the current socket of the user is removed |
| `WsManager.InboxConnectionManager.SendJson` | backend/app/core/ws_manager.py:49-69 | true exactly if connected and the send worked; a failing socket is counted and removed |
| `WsManager.InboxHoldsTheNewest` | backend/app/core/ws_manager.py:25-69 | after any events the registry holds exactly the socket opened last for a user and not ended since; the counter is the number of entries |
| `WsManager.InboxSendMeans` | backend/app/core/ws_manager.py:49-69 | one attempt through the user's socket with the message; success is reported exactly if it went through, and a failing socket goes and is counted |
| `WsManager.InboxEventCounts` | backend/app/core/ws_manager.py:31-47 | opening closes exactly the user's other socket; connects and disconnects are counted as they change the registry |
| `WsManager.LateGoodbyeChangesNothing` | backend/app/core/ws_manager.py:43-47 | the disconnect of a replaced inbox socket changes nothing, not even a counter |
| `RealtimeBus.Instance.HandleMessage` | backend/app/core/realtime_bus.py:138-167 | an envelope of the instance's own, and what is no text, leaves registries, logs and counters as they are; what cannot be decoded or misses an id is counted; a foreign chat event or reactions refresh adds to the log exactly one attempt for each connection of the chat, in order, with its payload; a foreign inbox event adds one attempt if the user is connected |
| `RealtimeBus.AtMostOnce` | backend/app/core/realtime_bus.py:56-72 | in every run over any number of instances no socket receives an event twice |
| `RealtimeBus.ExactlyOnce` | backend/app/application/realtime/chat_events.py:18-27 | a socket live at emission and still live when its instance has settled the event has received it exactly once |
| `RealtimeBus.FilterDecides` | backend/app/core/realtime_bus.py:143-144 | delivery is at most once in all runs if and only if instances drop their own envelopes |
| `RealtimeBus.RunKeepsInvariant` | backend/app/core/realtime_bus.py:138-159 | a loop only holds sockets of its instance and chat; remote loops start from envelopes in flight; receivers have been passed by their own instance's loop |
| `RealtimeBus.ServedKept` | backend/app/core/ws_manager.py:113-116 | while a socket stays live, the loop of its instance still has it before it or has served it |
| `BusRuns.StoryCouples` | backend/app/core/realtime_bus.py:143-167 | over every run of connects, disconnects, broadcasts and handled envelopes, with the registries as the classes leave them, each instance lists exactly the live sockets of the step machine, and the logs show exactly what the machine counts as received |
| `BusRuns.HeardAtMostOnce` | backend/app/core/realtime_bus.py:148-149 | in every such run no socket is sent an event twice with success, by whichever instance |
| `BusRuns.HeardExactlyOnce` | backend/app/core/realtime_bus.py:143-159 | a connection that is in the chat when an event is emitted and still there when its instance has handled the envelope was sent it exactly once with success |
| `BusRuns.SendsRun` | backend/app/core/ws_manager.py:106-116 | a broadcast over the list of a chat is the machine's loop: it serves every socket once and takes out those that fail |
| `RateLimit.InMemoryRateLimiter.Check` | backend/app/core/rate_limit.py:24-38 | rejects exactly when the full history holds `max_attempts` accepted hits in the last window; the deque and history are as specified, other buckets untouched |
| `RateLimit.PruningDecides` | backend/app/core/rate_limit.py:27-33 | after pruning, the length of the deque is the number of accepted hits in the window |
| `RateLimit.HitAcceptedIff` | backend/app/core/rate_limit.py:24-39 | the next hit of a bucket is accepted if and only if fewer than `max_attempts` accepted hits lie in the window that ends with it |
| `RateLimit.SlidingWindowBound` | backend/app/core/rate_limit.py:24-38 | in every run with a monotone clock every window holds at most `max_attempts` accepted hits |
| `RateLimit.BucketsAreSeparate` | backend/app/core/rate_limit.py:26 | two bucket keys are equal if and only if rule and key are |
| `RateLimit.ShippedRulesSeparate` | backend/app/core/rate_limit.py:82-95 | the rules of the application have different names without colons |
| `RateLimit.RedisRateLimiter.Check` | backend/app/core/rate_limit.py:56-66 | counts every hit, sets the deadline on the first, accepts while the count is within the limit |
| `RateLimit.FixedWindowBound` | backend/app/core/rate_limit.py:56-66 | in every run every window holds at most `2 * max_attempts - 1` accepted hits |
| `RateLimit.FixedWindowIsSharp` | backend/app/core/rate_limit.py:56-66 | for every rule a run reaches that bound |
| `RateLimit.RunHasLifetimes` | backend/app/core/rate_limit.py:58-61 | the accepted hits of a run split into counter lifetimes, each of at most `max_attempts` hits and starting a window after the one before |
| `Keyset.WalkFixed` | backend/app/application/chats/chat_listing.py:233-248 | following cursors over a fixed table delivers its rows in order, each once, in at most one request per row plus one |
| `Keyset.SessionDelivers` | backend/app/application/chats/chat_listing.py:177-250 | the same for an endpoint with clamped limits, from the first page on; when it ends every row has been delivered |
| `Keyset.WalkInFront` | backend/app/application/messages/queries.py:36-51 | rows that arrive in front of the cursor do not disturb a walk |
| `Keyset.WalkBehind` | backend/app/application/messages/queries.py:36-51 | rows appended behind the others are picked up, and the last page says whether any remain |
| `ChatListing.ChatCursorExact` | backend/app/application/chats/chat_listing.py:208-231 | the filter of a v2 cursor selects exactly the chats after its row, chats without messages included |
| `ChatListing.LegacyCursorExact` | backend/app/application/chats/chat_listing.py:212-218 | when a cursor without the pin still filters correctly |
| `ChatListing.ChatsDeliveredOnce` | backend/app/application/chats/chat_listing.py:186-250 | the cursors deliver every chat of the user with the asked archive flag once, and no other: pinned first, then by last activity, the epoch without messages, then by id, all descending |
| `ChatListing.ListMyChatsPage` | backend/app/application/chats/chat_listing.py:177-250 | the page holds the responses of exactly the paged rows, with `has_more` and the next cursor |
| `ChatListing.BuildChatResponsesBatch` | backend/app/application/chats/chat_listing.py:47-168 | one query per table and the loop give each chat the response that queries of its own give: peer, titles, names, last message by id, counters and flags |
| `ChatListing.BuildResponse` | backend/app/application/chats/chat_listing.py:112-166 | the loop body computes the response from the members, the last message, the membership and the count |
| `ChatListing.BatchedUnreadIsSimple` | backend/app/application/chats/chat_listing.py:92-109 | the grouped unread count equals `unread_count_for_user` for every listed chat |
| `ChatListing.LoadBatch` | backend/app/application/chats/chat_listing.py:55-109 | the dictionaries hold for every listed chat its members by name, its message of largest id, the own membership and the unread count |
| `ChatListing.LastIsNewest` | backend/app/application/chats/chat_listing.py:79-90 | the grouped maximum joined with the messages gives each chat its message of largest id, and no entry without messages |
| `ChatListing.UsersAgree` | backend/app/application/chats/chat_listing.py:58-67 | the loop over the joined rows gives each listed chat its members in name order |
| `ChatListing.FormsAgreeIff` | backend/app/application/chats/chat_commands.py:74-116 | for a private chat of two, the list and the response to asking for it agree in all that both fill in if and only if the largest message id carries the latest time |
| `ChatListing.ShownTimeIsSortKeyIff` | backend/app/application/chats/chat_listing.py:188-197 | the time the list shows is the one it sorts by if and only if the same holds |
| `ChatListing.LaterIdEarlierTime` | backend/app/application/chats/chat_listing.py:79-90 | a private chat of two, with two messages, whose list entry and single response show different messages |
| `ChatListShows.LastMessageShows` | backend/app/application/chats/chat_listing.py:148-157 | an entry shows the message with the largest id: its text, or the tombstone text if it is deleted; its type, `text` if missing or blank; its time, sender and id |
| `ChatListShows.DeletedMessagesNeverList` | backend/app/application/chats/chat_listing.py:148-154 | two databases that differ only in text, type and media of deleted messages give the same pages and the same entries |
| `ChatListShows.PeerShows` | backend/app/application/chats/chat_listing.py:118-127 | a private chat with another member carries the name, picture and last-seen time of the first other member by name |
| `ChatListShows.OtherOfTwoShows` | backend/app/application/chats/chat_listing.py:123-127 | in a private chat of two that is the other of the two |
| `ChatListShows.OwnTitleShows` | backend/app/application/chats/chat_listing.py:119-122 | a group, and a private chat without another member, shows its own title and picture and no last-seen time |
| `ChatListShows.SenderNameShows` | backend/app/application/chats/chat_listing.py:129-137 | the sender is named exactly while a member whose name is not blank, by that name without white space at its ends |
| `ChatListShows.MembershipShows` | backend/app/application/chats/chat_listing.py:139-143 | read pointer, flags and the number of unread messages are those of the viewer's membership |
| `ChatListShows.EntryAt` | backend/app/application/chats/chat_listing.py:114-173 | each entry of a page is that of its own chat |
| `ChatListShows.PrivateReplyShows` | backend/app/application/chats/chat_commands.py:74-116 | the response to asking for a private chat shows the latest message by time, the other user if there is one, and no flag and no sender's name |
| `ChatListShows.LastActivityIs` | backend/app/application/chats/chat_listing.py:195-205 | the time a chat is sorted by is that of its latest message, none without messages |
| `ChatListShows.RowsAreMyChats` | backend/app/application/chats/chat_listing.py:207-213 | the rows are exactly the user's chats with the asked archive flag, with the pin of the membership |
| `ChatListShows.ChatPageIsFull` | backend/app/application/chats/chat_listing.py:193-245 | a page holds as many of the remaining chats as asked for, between 1 and 200, `has_more` exact |
| `UserSearch.UserCursorExact` | backend/app/application/users/user_search.py:43-50 | the filter of a cursor selects exactly the users after its row |
| `UserSearch.SearchDeliversEachUserOnce` | backend/app/application/users/user_search.py:36-58 | the cursors deliver every other user whose name matches the stripped query exactly once, by username and then id, and nobody else |
| `UserSearch.SearchPageIsFull` | backend/app/application/users/user_search.py:32-52 | a query of fewer than two characters finds nothing; otherwise a page holds as many of the remaining users as asked for, between 1 and 50, `has_more` exact |
| `CallsListing.CallCursorExact` | backend/app/application/calls/calls_listing.py:52-59 | the filter of a cursor selects exactly the calls after its row |
| `CallsListing.CallsDeliveredOnce` | backend/app/application/calls/calls_listing.py:36-67 | the cursors deliver every call of the user's chats, or of the one asked for, exactly once and no other call, by start and then id, both descending |
| `CallsListing.CallPageIsFull` | backend/app/application/calls/calls_listing.py:36-67 | a page holds as many of the remaining calls as asked for, between 1 and 200, `has_more` exact |
| `History.SelectRows` | backend/app/application/messages/queries.py:33-51 | the rows and `has_more` equal the generic keyset page in reading direction |
| `History.NewestRows` | backend/app/application/messages/queries.py:43-51 | of one row too many the slice from the end drops the oldest |
| `History.ScrollingUpRebuildsHistory` | backend/app/repositories/messages_repository.py:36-61 | scrolling up shows exactly the newest messages of the starting history, in id order, once each, `has_more` exact, whatever arrives meanwhile |
| `History.CatchingUpDeliversNewer` | backend/app/repositories/messages_repository.py:63-76 | paging forward delivers exactly the newer messages in id order, `has_more` exact, arrivals included |
| `History.ShownAreTheNewest` | backend/app/application/messages/queries.py:33-51 | scrolling up shows ids in ascending order, and whatever it has not shown of the starting history is older |
| `History.ShownAreTheNext` | backend/app/application/messages/queries.py:33-51 | catching up shows ids after the start in ascending order, and whatever it has not shown is newer |
| `History.HistoryPageIsFull` | backend/app/application/messages/queries.py:33-51 | a page holds as many messages as asked for, between 1 and 100 and otherwise 50, as far as there are any, `has_more` exact |
| `MessageQueries.ListChatMessages` | backend/app/application/messages/queries.py:21-88 | an error exactly for non-members; otherwise exactly the paged rows, each as the single-message response |
| `MessageQueries.ResponseAt` | backend/app/application/messages/queries.py:75-86 | each item of a page is the response of its own row |
| `MessageQueries.RespondToRows` | backend/app/application/messages/queries.py:52-86 | batched parents, reactions and statuses, and URLs signed in place, give the single-message responses |
| `MessageQueries.LoadBatch` | backend/app/application/messages/queries.py:54-73 | the batched dictionaries say about each row what the tables say |
| `MessageQueries.LoadParents` | backend/app/application/messages/queries.py:54-61 | exactly the existing parents, with their URLs signed |
| `Projection.ComputeDeliveryStatus` | backend/app/application/messages/message_projection.py:87-107 | none for others' messages or without other members, read exactly if every other member has read that far |
| `Projection.ComputeDeliveryStatuses` | backend/app/application/messages/message_projection.py:110-133 | the batched statuses equal the single ones, for exactly the viewer's messages |
| `Projection.MessageToResponseBatched` | backend/app/application/messages/message_projection.py:214-283 | the response from the looked-up parent, reactions and status, with the message's mentions and poll tally |
| `Projection.ApplyPrivateMediaUrls` | backend/app/application/messages/message_projection.py:349-363 | every row in place, signed exactly for private media that is not deleted |
| `Projection.PresigningIsInvisible` | backend/app/application/messages/message_projection.py:349-378 | signing in advance changes no response and no reply preview |
| `Projection.DeletedContentNeverShows` | backend/app/application/messages/message_projection.py:45-84 | two deleted messages that differ in text, type or media only are shown alike, alone and as parents |
| `MessageShows.PlainMessageShows` | backend/app/application/messages/message_projection.py:189-211 | a message that is not deleted shows its own row: id, chat, sender, text, empty only if there is none, type, `text` only if missing or blank, media, times, reply, forward and pin |
| `MessageShows.DeletedMessageShows` | backend/app/application/messages/message_projection.py:189-211 | a deleted message keeps its place, sender and times and shows the tombstone text and nothing of its content |
| `MessageShows.MediaShows` | backend/app/application/messages/message_projection.py:153-166 | the URL is signed exactly if the storage is configured, the type is one of the six kinds and there is a key; otherwise it is the stored one |
| `MessageShows.PreviewShows` | backend/app/application/messages/message_projection.py:61-84 | a reply carries a preview exactly if its parent exists, of that parent, with its text unless deleted |
| `MessageShows.DeliveryShows` | backend/app/application/messages/message_projection.py:87-107 | a status is shown exactly to the sender in a chat with other members: read if and only if every other member's pointer is at least the id |
| `MessageShows.ReactionsShow` | backend/app/application/messages/reaction_service.py:9-40 | under each emoji exactly who reacted with it, in ascending order, counted, and whether the viewer did; no groups without a viewer |
| `MessageShows.MentionsShow` | backend/app/application/messages/mention_service.py:90-106 | exactly the users of the message's mention rows |
| `MessageShows.PollShows` | backend/app/application/messages/message_projection.py:181-187 | a poll is shown exactly for a poll message with a poll row, with its question, flags, and options in their positions |
| `MessageShows.SignedRowIs` | backend/app/application/messages/message_projection.py:349-378 | signing in advance rewrites the URL of exactly the shown private files, and nothing else of a row |
| `Projection.ReadStaysRead` | backend/app/application/messages/message_projection.py:103-107 | while no member joins, no run of read receipts turns read into sent |
| `Reactions.ReactionGroupsForMessages` | backend/app/application/messages/reaction_service.py:9-40 | an entry exactly for asked messages with reactions, equal to the grouping of that message alone |
| `Reactions.Accumulate` | backend/app/application/messages/reaction_service.py:21-24 | the accumulator holds exactly the wanted rows, by message and emoji |
| `Reactions.GroupsAreConsistent` | backend/app/application/messages/reaction_service.py:29-38 | count, sorted distinct reactors and the viewer's flag agree |
| `Reactions.GroupsAreOrdered` | backend/app/application/messages/reaction_service.py:29 | groups come in emoji order, none twice |
| `Reactions.GroupsSayWhoReacted` | backend/app/application/messages/reaction_service.py:21-38 | a user is listed under an emoji exactly when there is such a reaction |
| `ReadTracking.ReadStore.MarkChatRead` | backend/app/application/chats/read_tracking.py:10-45 | the new pointer and the reply, errors included |
| `ReadTracking.MarkReadAdvances` | backend/app/application/chats/read_tracking.py:19-45 | the pointer becomes the maximum, unread messages shrink to those after the id, nobody else changes |
| `ReadTracking.ReadStore.RepointLastReadBeforeMessageDelete` | backend/app/application/messages/membership_reads.py:7-25 | exactly the pointers at the deleted message move to the newest older one |
| `ReadTracking.PreviousIsNewestOlder` | backend/app/application/messages/membership_reads.py:11-17 | the new target is the largest smaller id of the chat, or none |
| `ReadTracking.RepointMoves` | backend/app/application/messages/membership_reads.py:7-25 | exactly the pointers at the message move, to the newest older message of the chat or none; nothing else of a membership changes |
| `ReadTracking.RepointKeepsUnread` | backend/app/application/messages/membership_reads.py:7-25 | repointing and then deleting leaves every member exactly the unread messages that remain |
| `ReadTracking.SetNullRecounts` | backend/app/models/chat_member.py:21-26 | for any set of deleted messages a member's unread messages stay right if and only if the pointer is not among the deleted or every older message that stays is the member's own |
| `ReadTracking.AccountDeletionRecounts` | backend/app/api/users_router.py:151-153 | for all messages of a sender at once: if and only if the pointer is at none of them or everything older was written by the sender or the member |
| `ReadTracking.ReadMessageTurnsUnread` | backend/app/api/users_router.py:151-153 | an account deletion that makes a read message unread |
| `Mentions.ExtractMentionUsernames` | backend/app/application/messages/mention_service.py:12-23 | exactly the first spellings of the names of all mentions, in order |
| `Mentions.FindAll` | backend/app/application/messages/mention_service.py:9-17 | scanning without overlaps finds the name of every position where a mention starts, in order |
| `Mentions.GreedyIsLongest` | backend/app/application/messages/mention_service.py:9 | a name takes every allowed character up to 32, and stops only there, at the end or before another character |
| `Mentions.AlphabetIs` | backend/app/application/messages/mention_service.py:9 | the characters of a name are exactly the ASCII letters, the digits, `_`, `.` and `-` |
| `Mentions.NamesStand` | backend/app/application/messages/mention_service.py:9-17 | the names of a text are exactly those of 2 to 32 such characters that stand behind an `@` after no word character and no `@`, and end at 32, at the end or before another character |
| `Mentions.LowerIs` | backend/app/application/messages/mention_service.py:18 | lower case turns each capital into its small letter and keeps the rest |
| `Mentions.FirstSpellingsAre` | backend/app/application/messages/mention_service.py:17-23 | a name is kept exactly if its spelling comes first, and every name keeps a spelling |
| `Mentions.FirstSpellingsDiffer` | backend/app/application/messages/mention_service.py:18-22 | the kept names differ up to case |
| `Mentions.IndexByUsername` | backend/app/application/messages/mention_service.py:47-54 | the dictionary has exactly one entry for each user with a kept name |
| `Mentions.ResolveChatMentions` | backend/app/application/messages/mention_service.py:26-74 | no duplicates, and exactly the members who are listed or whose own spelling comes first in the text, the named ones first and in text order |
| `Mentions.MentionedIff` | backend/app/application/messages/mention_service.py:26-74 | a user is mentioned if and only if listed, or if the user's own name stands in the text and no other spelling of it stands before |
| `Mentions.FirstSpellingDecides` | backend/app/application/messages/mention_service.py:48-61 | a user named in some spelling, not listed, is mentioned if and only if the first spelling is the user's own |
| `Mentions.SecondSpellingIsMissed` | backend/app/application/messages/mention_service.py:17-22 | a text that contains a user's exact name but does not mention the user |
| `Mentions.MentionStore.ReplaceMessageMentions` | backend/app/application/messages/mention_service.py:77-87 | the message has exactly the given mentions in order, no other message changes |
| `Mentions.LoadMessageMentionsMap` | backend/app/application/messages/mention_service.py:90-106 | an entry exactly for asked messages with mentions, equal to what a query for that message gives |
| `Polls.ValidateOptions` | backend/app/application/messages/poll_commands.py:21-46 | the first bad option decides the error; otherwise fewer than two are refused, and the stripped non-blank options are returned |
| `Polls.CleanedAre` | backend/app/application/messages/poll_commands.py:24-27 | the options kept are exactly the trimmed ones of those that are not blank |
| `Polls.CleanedCount` | backend/app/application/messages/poll_commands.py:24-27 | one is kept for each option that is not blank |
| `Polls.PollStore.VoteInPoll` | backend/app/application/messages/poll_commands.py:108-166 | each refusal in its order with the rows unchanged; otherwise the earlier ballot is replaced by one vote per chosen option |
| `Polls.PollStore.ClosePoll` | backend/app/application/messages/poll_commands.py:177-205 | each refusal in its order; otherwise exactly this poll is closed |
| `Polls.VoteReplacesBallot` | backend/app/application/messages/poll_commands.py:154-165 | afterwards the user's votes are exactly the chosen options, all other votes are as before |
| `Polls.VoteAcceptedIff` | backend/app/application/messages/poll_commands.py:108-152 | a vote is accepted if and only if the message is a poll with an open row, the user is in its chat, every chosen id is one of its options, and at most one is chosen unless it allows several |
| `Polls.VoteRefusedBecause` | backend/app/application/messages/poll_commands.py:108-152 | each refusal exactly on its condition, the first that applies |
| `Polls.CloseAcceptedIff` | backend/app/application/messages/poll_commands.py:177-201 | closing is accepted if and only if the author of a poll that exists asks, while in its chat |
| `Polls.ClosingMeans` | backend/app/application/messages/poll_commands.py:203-205 | exactly this poll is closed, and nothing else of it or of any row changes |
| `Polls.SerializePoll` | backend/app/application/messages/poll_service.py:7-59 | the response is the tally of the poll's vote rows |
| `PollRuns.RunKeepsVotesValid` | backend/app/application/messages/poll_commands.py:129-166 | after any run of polls, votes, closings, message deletions and all commands on chats and accounts: every vote is by an existing user and names an option of its own existing poll, no row is double, a single-choice poll has one vote per user |
| `PollRuns.PostingMeans` | backend/app/application/messages/poll_commands.py:49-98 | a member's poll is posted, open and without votes, and leaves other polls alone; anybody else's changes nothing |
| `PollRuns.ClosedOnlyByAuthor` | backend/app/application/messages/poll_commands.py:186-205 | in every run a closed poll was closed by its author, while in its chat |
| `PollRuns.TallyMeans` | backend/app/application/messages/poll_service.py:25-59 | after any such run the total is the number of vote rows, for single choice of voters; each option counts and lists its distinct voters, unless anonymous, and flags the viewer's choice |
| `PollRuns.ClosedTallyIsFinal` | backend/app/application/messages/poll_commands.py:203-205 | once closed, and while it stays, a poll's row stays the same, and its ballots and tally are, for every viewer, those of then by the users who still have an account |
| `PollRuns.PollStaysIff` | backend/app/models/poll.py:19-28 | whatever commands follow, a poll stays, on the same message of the same author, if and only if its author still has an account and its chat still has members |
| `PollRuns.CommandMoves` | backend/app/application/chats/membership_commands.py:17-133 | a chat loses its last member exactly when, being private, a member's account deletion succeeds, or, being a group, its only member leaves or deletes the account; an empty roster is never filled again |
| `PollRuns.PrivatePollStaysIff` | backend/app/api/users_router.py:168-175 | a poll in a private chat stays if and only if both members still have their accounts |
| `PollRuns.OtherAccountTakesPoll` | backend/app/api/users_router.py:168-204 | the deletion of another account that empties a poll's chat takes the poll along while the author's account stays |
| `PollRuns.MessagesStayAlive` | backend/app/api/users_router.py:151-204 | of messages whose sender has an account and whose chat has members, a command keeps exactly those of which this still holds, unchanged |
| `PollRaces.CommitKeepsIff` | backend/app/application/messages/poll_commands.py:154-166 | a commit leaves other users' votes alone; it makes the user's votes exactly the chosen options if and only if no row of the user came in since the request deleted, and keeps the votes valid if and only if that is so, several are allowed, or nothing was chosen |
| `PollRaces.ValidThroughoutIff` | backend/app/application/messages/poll_commands.py:108-166 | in every interleaving the votes are valid throughout if and only if no commit adds a choice beside one it has missed |
| `PollRaces.ChoiceKeptIff` | backend/app/application/messages/poll_commands.py:154-166 | all interleavings keep the votes of a poll with different options valid if and only if it allows several or one user's votes wait for each other |
| `PollRaces.BothChoose` | backend/app/application/messages/poll_commands.py:154-166 | for any two options of a single-choice poll, an interleaving of two votes of one user that ends with both |
| `PollRaces.ClosedIsFinalIff` | backend/app/application/messages/poll_commands.py:129-205 | the votes of a closed poll never change again if and only if no request past its check would change them if it were finished now |

## Left out

- HTTP routing, request validation, tokens, middleware, mail, push delivery, file storage, TURN credentials, migrations and the Flutter client: I/O or calls into libraries.
- The JSON and base64 text of cursors: a cursor is the record it carries; a malformed cursor is not modelled.
- Paging claims for cursors without the pin: `ChatListing.LegacyCursorExact` says when such a cursor filters correctly, no more.
- The session's identity map: rows are values, so a parent that is itself on the page is signed separately, which `Projection.PresigningIsInvisible` shows to make no difference.
- Membership.ChatStore.DeleteMyAccount: covers memberships, chats and messages; polls and votes go by CASCADE in `PollRuns`; device tokens, calls, stories and other rows of the user are not part of this model.
- PrivateChats.RepliesAreFinal: no chat is deleted in its runs, since group commands and account deletion are not interleaved with private-chat creation; `Ownership` runs all commands one after another.
- The await between closing an old socket and appending the new one in `connect`: connecting is one step.
- Connect and disconnect totals as a balance, since disconnects that remove nothing are counted.
- RealtimeBus.ExactlyOnce: events are broadcasts to all sockets of a chat; for events that skip their sender the remote instances broadcast to everyone, so nothing is claimed about a sender not seeing its own event.
- Reconnecting to Redis and the subscriber loop: the bus hands over a text at most once per instance; building a reactions payload does not fail.
- Hard deletion of messages while retries of the same client id are in flight.
- Redis time: a counter is dropped at its deadline, or right after a check at that very instant; clock skew between servers is not modelled.
- GroupRaces.OwnedThroughoutIff: writing, counting the members left and committing is one step; the row locks held in between and concurrent account deletions are not modelled.
- PollRaces.ClosedIsFinalIff: one poll that stays; commands on its chat and accounts are interleaved with votes only one after another, in `PollRuns`.
- The commit of a poll's message before its poll row, and retries of `create_poll_message` by client id: posting a poll is one step.
- Creating, editing, forwarding and deleting messages apart from the idempotent send; deleting one enters `PollRuns` as a message that is no poll any more.
