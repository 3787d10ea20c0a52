/** The six tables of the store and the shape of their rows.

    The `users`, `conversations` and `messages` tables never delete a row, so a
    document id of one of them is the row's position in its table, and the
    table's length is the next fresh id. The three other tables
    (`typingIndicators`, `messageReactions`, `userConversationUnreads`) are
    looked up by their key fields only; they are kept as sequences of rows in
    insertion order, which is the order Convex returns them in. */
module Schema {
  import opened Wrappers

  type UserId = nat
  type ConversationId = nat
  type MessageId = nat

  /** A row of `users`; `lastSeen` is a millisecond timestamp. */
  datatype User = User(
    clerkId: string,
    name: string,
    imageUrl: string,
    email: string,
    isOnline: bool,
    lastSeen: int)

  /** A row of `conversations`. */
  datatype Conversation = Conversation(
    participants: seq<UserId>,
    isGroup: bool,
    name: Option<string>,
    lastMessage: Option<MessageId>,
    updatedAt: int)

  /** One entry of a message's reaction list: an emoji and who reacted with it. */
  datatype Reaction = Reaction(emoji: string, userIds: seq<UserId>)

  /** A row of `messages`. An absent `reactions` field is the empty list. */
  datatype Message = Message(
    conversationId: ConversationId,
    senderId: UserId,
    content: string,
    timestamp: int,
    isDeleted: bool,
    reactions: seq<Reaction>,
    editedAt: Option<int>,
    replyTo: Option<MessageId>)

  /** A row of `typingIndicators`. */
  datatype TypingIndicator = TypingIndicator(conversationId: ConversationId, userId: UserId, timestamp: int)

  /** A row of `messageReactions`. */
  datatype MessageReaction = MessageReaction(messageId: MessageId, userId: UserId, reaction: string)

  /** A row of `userConversationUnreads`. */
  datatype UnreadRow = UnreadRow(userId: UserId, conversationId: ConversationId, unreadCount: int)

  /** `ctx.db.get(id)` on a table whose ids are positions. */
  function Get<T>(table: seq<T>, id: nat): (r: Option<T>)
    ensures r.Some? <==> id < |table|
    ensures r.Some? ==> r.value == table[id]
  {
    if id < |table| then Some(table[id]) else None
  }
}
