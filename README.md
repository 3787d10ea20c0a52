# Realtime chat backend — a Dafny model

This project models the server side of a small realtime chat application built on
Convex. Users sync their profile from the identity provider and exchange messages in
one-to-one or group conversations. The server keeps, per user and conversation, a
counter of unread messages. It also tracks short-lived "is typing" signals and toggles
emoji reactions on messages. Beside the backend, the model covers the pure formatter
that turns a user's online flag and last-seen time into an activity label.

Layout, one module per source file:

| module | file | models |
|---|---|---|
| `Schema` | `schema.dfy` | the record shapes of `convex/schema.ts`, and `ctx.db.get` |
| `Unreads` | `unreads.dfy` | the `userConversationUnreads` table and `getUnreadCount` |
| `Messages` | `messages.dfy` | send (its unread fan-out), list, soft delete, edit, and the reaction-list toggle |
| `Conversations` | `conversations.dfy` | create (1:1 de-duplication), mark as read, list, get |
| `Typing` | `typing.dfy` | set/refresh/delete a typing signal, and the two read-side queries |
| `Reactions` | `reactions.dfy` | the separate `messageReactions` table: toggle a row, list rows |
| `Users` | `users.dfy` | sync a user, set online, list users |
| `ActivityStatus` | `activity_status.dfy` | `formatActivityStatus` |
| `Database` | `database.dfy` | class `Store`: the six tables as fields and every mutation as a method |
| `Seqs`, `Wrappers` | `seqs.dfy`, `wrappers.dfy` | first-match search, occurrence counts, `Option` |

How the store is represented:
- **Never-deleted tables.** `users`, `conversations` and `messages` never lose a row. Each is a sequence indexed by document id, so `ctx.db.get(id)` is `Schema.Get`. A new row's id is the table's length.
- **Tables with deletes or compound keys.** `typingIndicators`, `messageReactions` and `userConversationUnreads` are sequences in insertion order. An index query's `.first()` is the first matching row (`Seqs.FindFirst`).
- **Functions and methods.** Each operation is a pure function over the tables it reads. Lemmas state what that function guarantees. Each mutation handler is a method of `Database.Store`. Its postcondition ties the new tables to the function, and it preserves the store invariant `Store.Valid`:
  - one unread row per (user, conversation), and no negative counter;
  - one typing row per (conversation, user);
  - no duplicate reaction row;
  - one user per external id;
  - every stored 1:1 pair is sorted;
  - within a message, emojis are unique and reacting users are listed once.
- **Loops.** `sendMessage`'s loop over participants and `syncUser`'s loop marking other users offline are `while` loops in those methods. `getAllTypingIndicators`'s loop is a method. Each loop is proved against the function that specifies it.
- **Time.** `Date.now()` is an explicit `now` parameter.

Behaviour of the code worth noting:
- `sendMessage` does not reject empty content. `convex/messages.ts:12-20` inserts whatever it is given.
- `updateMessage` does not check `isDeleted`. `convex/messages.ts:80` tests only the sender. `Messages.EditAfterSoftDelete` proves that a soft-deleted message can still be edited.
- The 1:1 lookup in `createConversation` does not filter on `isGroup`. `convex/conversations.ts:13` matches on participants alone. `Conversations.DirectLookupMatchesGroups` proves that a 1:1 request returns the first conversation with the sorted pair even when it is a group, and inserts nothing.
- `sendMessage` increments once per participant *entry* other than the sender. A participant listed twice gets two increments (`Messages.FanOutEffect`, through `Occurrences`). With distinct participants this is exactly one (`Messages.FanOutDistinct`).
- `getConversations` shows the content of the last message even when that message is soft-deleted (`Conversations.Preview`).

## Model

| member | source | states |
|---|---|---|
| Schema.Get | convex/messages.ts:21 | `ctx.db.get` finds a row exactly when the id is below the table's length, and then returns that row |
| Unreads.FindUnread | convex/userConversationUnreads.ts:7-12 | the `.first()` lookup returns the first row for (u, c), and nothing exactly when no row is for (u, c) |
| Unreads.GetUnreadCount | convex/userConversationUnreads.ts:7-13 | a pair with no row reads as 0; with one row per pair, the count is that row's counter; non-negative counters give a non-negative result |
| Unreads.UnreadCountIsLocal | convex/userConversationUnreads.ts:7-13 | the count for (u, c) depends only on the rows for (u, c): two tables that agree on those rows give the same count |
| Unreads.SetCountKeepsPairs | convex/messages.ts:35-37 | patching one row's counter keeps one row per pair |
| Unreads.SetCountAt | convex/messages.ts:35-37 | after patching row k to n, the same pairs have rows; the patched pair reads n and every other pair reads as before |
| Unreads.AppendKeepsPairs | convex/messages.ts:39-43 | inserting a row for a pair that has none keeps one row per pair |
| Unreads.AppendAt | convex/messages.ts:39-43 | after that insert, the new pair has a row and reads the inserted count; every other pair is unchanged |
| Messages.GetMessages | convex/messages.ts:54-60 | the result is exactly the messages of the conversation, each with its id, in ascending id order |
| Messages.NewMessage | convex/messages.ts:12-20 | the inserted record; specified through `Database.Store.SendMessage`, whose contract appends it with the next id |
| Messages.Bump | convex/messages.ts:27-45 | one loop step; specified by `Messages.BumpEffect` and `Messages.BumpAt` |
| Messages.FanOut | convex/messages.ts:26-46 | the whole loop over the participants; specified by `Messages.FanOutEffect` and `Messages.FanOutDistinct`, and the loop of `Database.Store.SendMessage` is proved equal to it |
| Messages.BumpEffect | convex/messages.ts:27-45 | one loop step raises the (p, c) count by exactly one, creates its row if missing, touches no other pair, and keeps the table's invariants |
| Messages.BumpAt | convex/messages.ts:27-45 | one loop step, seen from one pair: (p, c) gains one and has a row afterwards; every other pair is unchanged |
| Messages.FanOutEffect | convex/messages.ts:26-46 | after the fan-out, each (u, c) count, for u not the sender, rose by the number of times u appears among the participants; all other counts are unchanged; a row exists for every such u; the invariants are kept |
| Messages.FanOutDistinct | convex/messages.ts:26-46 | with distinct participants, every participant other than the sender gains exactly one unread message |
| Messages.OccurrencesOfDistinct | convex/messages.ts:26 | a value in a list without duplicates occurs once |
| Messages.SoftDelete | convex/messages.ts:67-72 | only the target message's `isDeleted` can change; it becomes true exactly when it already was or the requester is the sender; a missing id changes nothing |
| Messages.SoftDeleteIdempotent | convex/messages.ts:67-72 | deleting twice is the same as deleting once |
| Messages.Edit | convex/messages.ts:79-83 | the sender's edit sets the content and `editedAt = now` and nothing else; anyone else's edit, or a missing id, changes nothing |
| Messages.EditAfterSoftDelete | convex/messages.ts:67-83 | a sender can edit their own soft-deleted message: it stays deleted and takes the new content and edit time |
| Messages.WithoutUser | convex/messages.ts:107-109 | filtering a user out of the reactor list keeps exactly the other users |
| Messages.WithoutUserNoDuplicates | convex/messages.ts:107-109 | filtering keeps a reactor list free of duplicates |
| Messages.WithoutAbsentUser | convex/messages.ts:107-109 | filtering out a user who is not in the list returns the list unchanged |
| Messages.WithoutUserAppend | convex/messages.ts:107-109 | filtering distributes over concatenation |
| Messages.OtherEmojisMembers | convex/messages.ts:100-102 | the entries for emojis other than the toggled one are exactly the entries with a different emoji |
| Messages.OtherEmojisAppend | convex/messages.ts:100-121 | the entries for other emojis of a concatenation are those of each part |
| Messages.OtherEmojisSkip | convex/messages.ts:100-121 | inserting an entry for the toggled emoji leaves the other emojis' entries unchanged |
| Messages.OtherEmojisAround | convex/messages.ts:107-112 | replacing or splicing out the toggled emoji's entry leaves the other emojis' entries unchanged |
| Messages.ToggleReaction | convex/messages.ts:97-121 | the reaction-list toggle; specified by `Messages.ToggleKeepsWellFormed`, `Messages.ToggleKeepsOtherEmojis`, `Messages.ToggleFlips`, `Messages.ToggleTwiceRestores` and `Messages.ToggleTwiceSameHolders` |
| Messages.ToggleKeepsWellFormed | convex/messages.ts:93-123 | the toggle keeps emojis unique and users listed once each, and leaves no entry with an empty user list |
| Messages.ToggleKeepsOtherEmojis | convex/messages.ts:93-123 | the toggle leaves every other emoji's entry unchanged, in order |
| Messages.ToggleFlips | convex/messages.ts:93-123 | the toggle flips whether this user reacted with this emoji and changes no other (emoji, user) pair's reaction |
| Messages.ToggleFlipsAt | convex/messages.ts:93-123 | the toggle flips the pointwise reaction fact for the toggled (emoji, user) pair and keeps it for every other pair |
| Messages.ToggleNewAt | convex/messages.ts:118-121 | a new emoji entry records exactly this user's reaction |
| Messages.ToggleReplaceAt | convex/messages.ts:104-117 | replacing the emoji's user list by one that differs only in this user flips that user's reaction and no other |
| Messages.ToggleDropAt | convex/messages.ts:106-113 | removing the entry whose last user leaves withdraws that user's reaction and no other |
| Messages.ToggleTwiceRestores | convex/messages.ts:93-123 | reacting and then un-reacting, starting from not having reacted, restores the exact reaction list |
| Messages.ToggleTwiceSameHolders | convex/messages.ts:93-123 | toggling twice always restores who reacted with what |
| Conversations.SortedPair | convex/conversations.ts:13 | `participants.sort()` on a pair yields a sorted permutation of it |
| Conversations.SortedPairIgnoresOrder | convex/conversations.ts:13 | both orders of a pair sort to the same key |
| Conversations.StoredParticipants | convex/conversations.ts:12-17 | a 1:1 request stores exactly the sorted pair (the in-place sort also changes the inserted array); any other request stores its list as given |
| Conversations.FindByParticipants | convex/conversations.ts:13 | the `by_participants` lookup returns the first conversation whose participants equal the key, and nothing exactly when there is none |
| Conversations.CreateConversation | convex/conversations.ts:12-21 | the returned id names a conversation with the stored participants; the table is either unchanged or grows by one new conversation with no last message; a non-1:1 request always inserts; a 1:1 request inserts nothing exactly when some conversation already has the sorted pair, and no conversation before the returned one has it |
| Conversations.CreateKeepsPairsCanonical | convex/conversations.ts:12-21 | creation keeps every stored 1:1 pair sorted |
| Conversations.PatchKeepsPairsCanonical | convex/messages.ts:22-25 | patching a conversation's last-message pointer and `updatedAt` keeps the stored 1:1 pairs canonical |
| Conversations.CreateDirectIdempotent | convex/conversations.ts:12-21 | a second 1:1 request for the same two users, in either order, returns the first request's conversation and changes nothing |
| Conversations.DirectLookupMatchesGroups | convex/conversations.ts:12-14 | the lookup has no `isGroup` filter: when the first conversation with the sorted pair is a group, a 1:1 request returns that group and inserts nothing |
| Conversations.DirectLookupGroupExample | convex/conversations.ts:12-14 | an instance: a 1:1 request for [2, 1] returns the existing group with participants [1, 2] |
| Conversations.MarkAsRead | convex/conversations.ts:28-31 | marking as read never adds or removes rows |
| Conversations.MarkAsReadEffect | convex/conversations.ts:28-31 | afterwards the pair reads 0 and every other pair reads as before; the same pairs have rows; repeating it changes nothing; the invariants are kept |
| Conversations.Preview | convex/conversations.ts:43-47 | a preview exists exactly when there is a pointer, it names a stored message, and that content is non-empty; it is then that message's content |
| Conversations.Annotate | convex/conversations.ts:42-48 | each listed conversation carries its unread count, with "missing" as 0, and the content of its last message |
| Conversations.Listing | convex/conversations.ts:38-49 | among the first n conversations, those that list the user, annotated, in id order |
| Conversations.GetConversations | convex/conversations.ts:38-50 | exactly the user's conversations, in id order, each with its own record, unread count and preview |
| Conversations.GetConversation | convex/conversations.ts:57 | the conversation with that id, or nothing |
| Typing.FindIndicator | convex/typing.ts:12-16 | the lookup returns the first indicator of (c, u), and nothing exactly when there is none |
| Typing.SetTyping | convex/typing.ts:12-31 | the indicator table after `setTyping`; specified by `Typing.SetTypingEffect`, `Typing.TypingExpires` and `Typing.StoppedTypingIsHidden` |
| Typing.OtherIndicatorsSkip | convex/typing.ts:12-31 | an indicator of the given pair can be dropped without changing the other pairs' indicators |
| Typing.SetTypingEffect | convex/typing.ts:12-31 | setTyping keeps one indicator per pair and leaves every other pair's indicators unchanged; `true` leaves exactly an indicator stamped `now`; `false` leaves none |
| Typing.InsertIndicatorEffect | convex/typing.ts:18-23 | inserting for a pair without an indicator gives it one stamped `now`, touching no other pair |
| Typing.RefreshIndicatorEffect | convex/typing.ts:24-25 | refreshing restamps the pair's one indicator with `now`, touching no other pair |
| Typing.DeleteIndicatorEffect | convex/typing.ts:28-30 | deleting removes the pair's one indicator, touching no other pair |
| Typing.TypingUsers | convex/typing.ts:39-49 | every live indicator (at most 2000 ms old) of the conversation whose user exists yields that user's id and name; every result comes from such an indicator |
| Typing.TypingExpires | convex/typing.ts:12-49 | after `setTyping(true)` at t0, the user is listed until t0 + 2000 and is not listed after |
| Typing.StoppedTypingIsHidden | convex/typing.ts:27-49 | after `setTyping(false)` the user is never listed |
| Typing.GetAllTypingIndicators | convex/typing.ts:57-77 | the map's keys are exactly the conversations that list the user, and each value is that conversation's live typers |
| Reactions.FindReactionRow | convex/reactions.ts:11 | the lookup returns the first row equal to the triple, and nothing exactly when the triple has no row |
| Reactions.ToggleReactionRow | convex/reactions.ts:11-20 | the row toggle; specified by `Reactions.ToggleRowEffect` and `Reactions.ToggleRowTwice` |
| Reactions.ToggleRowEffect | convex/reactions.ts:11-20 | the row for (message, user, reaction) is present afterwards exactly when it was absent before; every other row's presence is unchanged; rows stay distinct |
| Reactions.ToggleRowTwice | convex/reactions.ts:11-20 | toggling twice restores the set of rows, and restores the exact table when the row was absent |
| Reactions.RowsOf | convex/reactions.ts:27 | the index scan; specified by `Reactions.RowsOfCounts` and `Reactions.RowsOfAppend` |
| Reactions.RowsOfCounts | convex/reactions.ts:27 | the scan holds each row of the message as often as the table does, and no other row |
| Reactions.RowsOfAppend | convex/reactions.ts:27 | the scan keeps table order: it distributes over concatenation |
| Reactions.GetReactions | convex/reactions.ts:27 | exactly the rows of the given message, each as often as the table holds it |
| Reactions.GetReactionsAppend | convex/reactions.ts:27 | the listing keeps table order: the rows of a split table are those of the first part, then those of the second |
| Reactions.GetReactionsNoDuplicates | convex/reactions.ts:27 | a table without duplicate rows gives a listing without duplicates |
| Users.FindByClerkId | convex/users.ts:12 | the `by_clerk_id` lookup returns the first user with that external id, and nothing exactly when there is none |
| Users.SyncUser | convex/users.ts:12-43 | the upsert and the returned id; specified by `Users.SyncUserEffect`, and the loop of `Database.Store.SyncUser` is proved against it |
| Users.MarkOthersOffline | convex/users.ts:22-26 | every user with another external id goes offline; nobody else changes |
| Users.SyncUserEffect | convex/users.ts:12-43 | the synced user's row holds the given profile, online, with `lastSeen = now`; an existing user keeps their id and no row is added; a new user gets the next id; every other user is the same but offline; one user per external id is kept |
| Users.SetOnline | convex/users.ts:51-57 | the user with that external id gets the flag and `lastSeen = now`; all other users are unchanged; an unknown id changes nothing |
| Users.GetUsers | convex/users.ts:63 | all users, each with its id, in id order |
| ActivityStatus.FormatActivityStatus | src/utils/formatActivityStatus.ts:6-36 | each label holds exactly when the source returns it: "online" when flagged online with a non-zero `lastSeen` at most 2 minutes old; otherwise "offline" when `lastSeen` is 0; "active now" under 1 minute; minutes 1..59; hours 1..23; days 1..6; then the clock time; each count is the floor of the elapsed time in that unit |
| ActivityStatus.NestedFloors | src/utils/formatActivityStatus.ts:16-20 | flooring seconds, then minutes, then hours is the same as flooring once by the larger unit |
| ActivityStatus.Text | src/utils/formatActivityStatus.ts:9-36 | the label text of each kind: "online", "offline", "active now", "active <n>m ago", "active <n>h ago", "active <n>d ago" with the decimal count, and "active " followed by the clock text |
| ActivityStatus.Decimal | src/utils/formatActivityStatus.ts:26 | a count is rendered as a non-empty string of decimal digits, with one digit exactly below 10 and no leading zero |
| ActivityStatus.DecimalRoundTrip | src/utils/formatActivityStatus.ts:26 | reading the rendered digits back as a decimal number gives the count |
| Database.Store.constructor | convex/schema.ts:4-46 | an empty database satisfies the store invariant |
| Database.Store.SendMessage | convex/messages.ts:12-47 | an unknown conversation aborts and changes nothing; otherwise the new message is appended with the next id, the conversation's last-message pointer and `updatedAt` point at it, and the unread counts rise as `Messages.FanOutEffect` states; the loop is proved against `Messages.FanOut` |
| Database.Store.DeleteMessage | convex/messages.ts:67-72 | the messages table becomes `Messages.SoftDelete` of the old one; the returned value is the message after the update, or nothing for a missing id |
| Database.Store.UpdateMessage | convex/messages.ts:79-83 | the messages table becomes `Messages.Edit` of the old one |
| Database.Store.AddReaction | convex/messages.ts:93-123 | the message's reaction list is toggled and the reaction table is untouched; a missing message changes nothing |
| Database.Store.CreateConversation | convex/conversations.ts:12-21 | the table and the returned id are those of `Conversations.CreateConversation` |
| Database.Store.MarkAsRead | convex/conversations.ts:28-31 | the unread table becomes `Conversations.MarkAsRead` of the old one, and the pair reads 0 |
| Database.Store.SetTyping | convex/typing.ts:12-31 | the typing table becomes `Typing.SetTyping` of the old one |
| Database.Store.AddReactionRow | convex/reactions.ts:11-20 | the reaction table toggles the row and the messages' own reaction lists are untouched |
| Database.Store.SyncUser | convex/users.ts:12-43 | the users table and the returned id are those of `Users.SyncUser`; the offline loop is proved against `Users.MarkOthersOffline` |
| Database.Store.SetOnline | convex/users.ts:51-57 | the users table becomes `Users.SetOnline` of the old one |

Every `Database.Store` method also keeps `Store.Valid` and leaves the tables it does not write unchanged.

## Left out

- Clients and subscriptions: the React components, the client hook that polls typing signals, timers and reactive re-rendering. They are not part of the backend.
- Concurrency: every mutation is one serialisable transaction, as Convex runs it. Interleavings are not modelled. For a missing conversation, `sendMessage` cannot complete: the patch at `convex/messages.ts:22` has no document to update, and the `participants` read at line 26 has no record. The model takes the mutation as aborted, with every table left unchanged. That is Convex's rollback of a failed mutation, which is a property of the runtime rather than of this code.
- Argument validation (`v.id`, `v.string`, ...): ids are natural numbers, and an id that names no row is handled by each operation's own missing-row branch.
- Ids as strings: Convex ids are opaque strings. `participants.sort()` compares them as strings; the model orders them as numbers. Only the fact that sorting canonicalises a pair is used.
- Document ids of the keyed tables: typing, reaction and unread rows are identified by their position and key rather than by a separate `_id`.
- Timestamps are integers: fractional, `NaN` or non-monotonic clocks are not modelled.
- Messages.GetMessages: ordered by id (insertion order), not by `timestamp`. Timestamps would be non-decreasing in that order only if the clock were monotonic, which the model does not assume.
- The legacy object-shaped `reactions` field (`v.any()` in `convex/schema.ts:27`): the model stores the list form only, with an absent field as `[]`.
- The optional `unreadCount` field on conversations (`convex/schema.ts:19`): no core operation reads or writes it.
- ActivityStatus.Text: the clock-time label uses the host locale and time zone (`toLocaleTimeString`). It is a `clockText` parameter, and `ActiveAt` records only `lastSeen`.
- Typing.TypingUsers: states membership in both directions and a length bound, not the order or multiplicity of the result.
- JavaScript falsiness of `lastSeen`: only 0 is treated as falsy, because `lastSeen` is an integer here.
- `participants.sort()` sorts the caller's array in place: modelled on values, as `Conversations.SortedPair`.
- The identity provider (Clerk) that supplies the external id and profile fields is out of scope: its values are parameters of `SyncUser`.
