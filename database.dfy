/** The store: the six tables as fields of one object, and every mutation of
    the backend as a method that runs as one transaction. A mutation that the
    source would abort (a thrown error) leaves every table as it was. */
module Database {
  import opened Wrappers
  import opened Seqs
  import opened Schema
  import opened Unreads
  import Messages
  import Conversations
  import Typing
  import Reactions
  import Users

  class Store {
    var users: seq<User>
    var conversations: seq<Conversation>
    var messages: seq<Message>
    var typingIndicators: seq<TypingIndicator>
    var messageReactions: seq<MessageReaction>
    var unreads: seq<UnreadRow>

    /** The invariants every transaction keeps. */
    ghost predicate Valid()
      reads this
    {
      && Users.OneUserPerClerkId(users)
      && Conversations.DirectPairsCanonical(conversations)
      && (forall id :: 0 <= id < |messages| ==> Messages.ReactionsWellFormed(messages[id].reactions))
      && Typing.OneIndicatorPerPair(typingIndicators)
      && NoDuplicates(messageReactions)
      && OneRowPerPair(unreads)
      && NonNegative(unreads)
    }

    /** An empty store. */
    constructor ()
      ensures Valid()
      ensures users == [] && conversations == [] && messages == []
      ensures typingIndicators == [] && messageReactions == [] && unreads == []
    {
      users, conversations, messages := [], [], [];
      typingIndicators, messageReactions, unreads := [], [], [];
    }

    // ------------------------------------------------------------ messages.ts

    /** `sendMessage`: insert the message, point the conversation at it, and
        add one unread message for every participant entry but the sender.
        An unknown conversation aborts the transaction. */
    method SendMessage(c: ConversationId, sender: UserId, content: string, replyTo: Option<MessageId>, now: int)
      returns (r: Option<MessageId>)
      requires Valid()
      modifies this
      ensures Valid()
      ensures users == old(users) && typingIndicators == old(typingIndicators)
      ensures messageReactions == old(messageReactions)
      ensures c >= |old(conversations)| ==>
        r.None? && messages == old(messages) && conversations == old(conversations) && unreads == old(unreads)
      ensures c < |old(conversations)| ==>
        && r == Some(|old(messages)|)
        && messages == old(messages) + [Messages.NewMessage(c, sender, content, replyTo, now)]
        && conversations == old(conversations)[c := old(conversations)[c].(lastMessage := r, updatedAt := now)]
        && unreads == Messages.FanOut(old(unreads), old(conversations)[c].participants, sender, c)
      ensures c < |old(conversations)| ==> forall u, c' :: (GetUnreadCount(unreads, u, c') ==
        GetUnreadCount(old(unreads), u, c') +
        (if c' == c && u != sender then Occurrences(old(conversations)[c].participants, u) else 0))
    {
      if c >= |conversations| {
        return None;
      }
      var id := |messages|;
      messages := messages + [Messages.NewMessage(c, sender, content, replyTo, now)];
      var conv := conversations[c];
      Conversations.PatchKeepsPairsCanonical(conversations, c, Some(id), now);
      conversations := conversations[c := conv.(lastMessage := Some(id), updatedAt := now)];
      var ps := conv.participants;
      var rows := unreads;
      var i := 0;
      while i < |ps|
        invariant 0 <= i <= |ps|
        invariant rows == Messages.FanOut(old(unreads), ps[..i], sender, c)
      {
        var p := ps[i];
        if p != sender {
          match FindUnread(rows, p, c) {
            case Some(k) =>
              rows := rows[k := rows[k].(unreadCount := rows[k].unreadCount + 1)];
            case None =>
              rows := rows + [UnreadRow(p, c, 1)];
          }
        }
        assert ps[..i + 1][..i] == ps[..i];
        i := i + 1;
      }
      assert ps[..i] == ps;
      unreads := rows;
      r := Some(id);
      Messages.FanOutEffect(old(unreads), ps, sender, c);
    }

    /** `deleteMessage`: the sender's request soft-deletes; the current record
        is returned, or nothing for a missing id. */
    method DeleteMessage(id: MessageId, user: UserId) returns (r: Option<Message>)
      requires Valid()
      modifies this
      ensures Valid()
      ensures messages == Messages.SoftDelete(old(messages), id, user)
      ensures r == Get(messages, id)
      ensures users == old(users) && conversations == old(conversations) && unreads == old(unreads)
      ensures typingIndicators == old(typingIndicators) && messageReactions == old(messageReactions)
    {
      var msg := Get(messages, id);
      if msg.None? {
        return None;
      }
      if msg.value.senderId == user {
        messages := messages[id := msg.value.(isDeleted := true)];
      }
      r := Get(messages, id);
    }

    /** `updateMessage`: the sender's request replaces the content and stamps
        `editedAt`; there is no `isDeleted` check. */
    method UpdateMessage(id: MessageId, content: string, user: UserId, now: int)
      requires Valid()
      modifies this
      ensures Valid()
      ensures messages == Messages.Edit(old(messages), id, content, user, now)
      ensures users == old(users) && conversations == old(conversations) && unreads == old(unreads)
      ensures typingIndicators == old(typingIndicators) && messageReactions == old(messageReactions)
    {
      var msg := Get(messages, id);
      if msg.Some? && msg.value.senderId == user {
        messages := messages[id := msg.value.(content := content, editedAt := Some(now))];
      }
    }

    /** `addReaction` of `messages.ts`: toggle `user`'s `emoji` in the message's
        reaction list; a missing message is a no-op. The separate reaction
        table is not touched. */
    method AddReaction(id: MessageId, emoji: string, user: UserId)
      requires Valid()
      modifies this
      ensures Valid()
      ensures id >= |old(messages)| ==> messages == old(messages)
      ensures id < |old(messages)| ==>
        messages == old(messages)[id := old(messages)[id].(reactions := Messages.ToggleReaction(old(messages)[id].reactions, emoji, user))]
      ensures users == old(users) && conversations == old(conversations) && unreads == old(unreads)
      ensures typingIndicators == old(typingIndicators) && messageReactions == old(messageReactions)
    {
      var msg := Get(messages, id);
      if msg.None? {
        return;
      }
      var reactions := Messages.ToggleReaction(msg.value.reactions, emoji, user);
      Messages.ToggleKeepsWellFormed(msg.value.reactions, emoji, user);
      messages := messages[id := msg.value.(reactions := reactions)];
    }

    // ------------------------------------------------------------ conversations.ts

    /** `createConversation`: a 1:1 request sorts its pair in place, then
        returns the first conversation with that participant list if any;
        otherwise a new conversation is inserted. */
    method CreateConversation(participants: seq<UserId>, isGroup: bool, name: Option<string>, now: int)
      returns (id: ConversationId)
      requires Valid()
      modifies this
      ensures Valid()
      ensures Conversations.Created(conversations, id) ==
        Conversations.CreateConversation(old(conversations), participants, isGroup, name, now)
      ensures users == old(users) && messages == old(messages) && unreads == old(unreads)
      ensures typingIndicators == old(typingIndicators) && messageReactions == old(messageReactions)
    {
      Conversations.CreateKeepsPairsCanonical(conversations, participants, isGroup, name, now);
      var ps := participants;
      if Conversations.IsDirectRequest(ps, isGroup) {
        ps := Conversations.SortedPair(ps);
        var existing := Conversations.FindByParticipants(conversations, ps);
        if existing.Some? {
          return existing.value;
        }
      }
      id := |conversations|;
      conversations := conversations + [Conversation(ps, isGroup, name, None, now)];
    }

    /** `markAsRead`: reset the pair's counter to 0 if it has a row. */
    method MarkAsRead(c: ConversationId, u: UserId)
      requires Valid()
      modifies this
      ensures Valid()
      ensures unreads == Conversations.MarkAsRead(old(unreads), c, u)
      ensures GetUnreadCount(unreads, u, c) == 0
      ensures users == old(users) && conversations == old(conversations) && messages == old(messages)
      ensures typingIndicators == old(typingIndicators) && messageReactions == old(messageReactions)
    {
      Conversations.MarkAsReadEffect(unreads, c, u);
      var existing := FindUnread(unreads, u, c);
      if existing.Some? {
        var k := existing.value;
        unreads := unreads[k := unreads[k].(unreadCount := 0)];
      }
    }

    // ------------------------------------------------------------ typing.ts

    /** `setTyping`: insert, refresh or delete the `(c, u)` indicator. */
    method SetTyping(c: ConversationId, u: UserId, isTyping: bool, now: int)
      requires Valid()
      modifies this
      ensures Valid()
      ensures typingIndicators == Typing.SetTyping(old(typingIndicators), c, u, isTyping, now)
      ensures users == old(users) && conversations == old(conversations) && messages == old(messages)
      ensures unreads == old(unreads) && messageReactions == old(messageReactions)
    {
      Typing.SetTypingEffect(typingIndicators, c, u, isTyping, now);
      var existing := Typing.FindIndicator(typingIndicators, c, u);
      if isTyping {
        if existing.None? {
          typingIndicators := typingIndicators + [TypingIndicator(c, u, now)];
        } else {
          var k := existing.value;
          typingIndicators := typingIndicators[k := typingIndicators[k].(timestamp := now)];
        }
      } else if existing.Some? {
        typingIndicators := RemoveAt(typingIndicators, existing.value);
      }
    }

    // ------------------------------------------------------------ reactions.ts

    /** `addReaction` of `reactions.ts`: delete the triple's row or insert it.
        The reaction lists stored on messages are not touched. */
    method AddReactionRow(m: MessageId, u: UserId, reaction: string)
      requires Valid()
      modifies this
      ensures Valid()
      ensures messageReactions == Reactions.ToggleReactionRow(old(messageReactions), m, u, reaction)
      ensures users == old(users) && conversations == old(conversations) && messages == old(messages)
      ensures unreads == old(unreads) && typingIndicators == old(typingIndicators)
    {
      Reactions.ToggleRowEffect(messageReactions, m, u, reaction);
      var existing := Reactions.FindReactionRow(messageReactions, m, u, reaction);
      if existing.Some? {
        messageReactions := RemoveAt(messageReactions, existing.value);
      } else {
        messageReactions := messageReactions + [MessageReaction(m, u, reaction)];
      }
    }

    // ------------------------------------------------------------ users.ts

    /** `syncUser`: patch or insert the user, then walk the users table marking
        every user with another `clerkId` offline. */
    method SyncUser(clerkId: string, name: string, imageUrl: string, email: string, now: int)
      returns (id: UserId)
      requires Valid()
      modifies this
      ensures Valid()
      ensures Users.Synced(users, id) == Users.SyncUser(old(users), clerkId, name, imageUrl, email, now)
      ensures conversations == old(conversations) && messages == old(messages) && unreads == old(unreads)
      ensures typingIndicators == old(typingIndicators) && messageReactions == old(messageReactions)
    {
      Users.SyncUserEffect(users, clerkId, name, imageUrl, email, now);
      var existing := Users.FindByClerkId(users, clerkId);
      var all: seq<User>;
      if existing.Some? {
        id := existing.value;
        all := users[id := users[id].(name := name, imageUrl := imageUrl, email := email, isOnline := true, lastSeen := now)];
      } else {
        id := |users|;
        all := users + [User(clerkId, name, imageUrl, email, true, now)];
      }
      var rows := all;
      var i := 0;
      while i < |all|
        invariant 0 <= i <= |all| && |rows| == |all|
        invariant forall j :: 0 <= j < i ==>
          rows[j] == if all[j].clerkId != clerkId then all[j].(isOnline := false) else all[j]
        invariant forall j :: i <= j < |all| ==> rows[j] == all[j]
      {
        if all[i].clerkId != clerkId {
          rows := rows[i := rows[i].(isOnline := false)];
        }
        i := i + 1;
      }
      users := rows;
      assert users == Users.MarkOthersOffline(all, clerkId);
    }

    /** `setOnline`: set the flag and `lastSeen` of the user with `clerkId`. */
    method SetOnline(clerkId: string, online: bool, now: int)
      requires Valid()
      modifies this
      ensures Valid()
      ensures users == Users.SetOnline(old(users), clerkId, online, now)
      ensures conversations == old(conversations) && messages == old(messages) && unreads == old(unreads)
      ensures typingIndicators == old(typingIndicators) && messageReactions == old(messageReactions)
    {
      var existing := Users.FindByClerkId(users, clerkId);
      if existing.Some? {
        var k := existing.value;
        users := users[k := users[k].(isOnline := online, lastSeen := now)];
      }
      assert forall j :: 0 <= j < |users| ==> users[j].clerkId == old(users)[j].clerkId;
    }
  }
}
