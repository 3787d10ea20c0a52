/** The conversation directory of `conversations.ts`: 1:1 deduplication,
    read acknowledgement and the per-user listing. */
module Conversations {
  import opened Wrappers
  import opened Seqs
  import opened Schema
  import opened Unreads

  // ---------------------------------------------------------------- createConversation

  /** `participants.sort()` on a two-element list: the pair in ascending id order. */
  function SortedPair(p: seq<UserId>): (r: seq<UserId>)
    requires |p| == 2
    ensures |r| == 2 && r[0] <= r[1]
    ensures multiset(r) == multiset(p)
  {
    assert p == [p[0], p[1]];
    if p[0] <= p[1] then p else [p[1], p[0]]
  }

  /** The sorted pair does not depend on the order the two ids were given in. */
  lemma SortedPairIgnoresOrder(a: UserId, b: UserId)
    ensures SortedPair([a, b]) == SortedPair([b, a])
  {
  }

  /** A request that `createConversation` deduplicates: not a group, two participants. */
  predicate IsDirectRequest(participants: seq<UserId>, isGroup: bool) {
    !isGroup && |participants| == 2
  }

  /** A stored conversation of the deduplicated kind. */
  predicate IsDirect(cv: Conversation) {
    IsDirectRequest(cv.participants, cv.isGroup)
  }

  /** The participant list that is looked up and stored: a 1:1 request's list
      has been sorted in place by then, any other list is kept as given. */
  function StoredParticipants(participants: seq<UserId>, isGroup: bool): (r: seq<UserId>)
    ensures multiset(r) == multiset(participants)
    ensures |r| == 2 && !isGroup ==> r[0] <= r[1]
    ensures IsDirectRequest(participants, isGroup) ==> r == SortedPair(participants)
    ensures !IsDirectRequest(participants, isGroup) ==> r == participants
  {
    if IsDirectRequest(participants, isGroup) then SortedPair(participants) else participants
  }

  /** The first conversation, of any kind, whose participant list is `key`:
      the `by_participants` index lookup, which has no `isGroup` filter. */
  function FindByParticipants(convs: seq<Conversation>, key: seq<UserId>): (r: Option<nat>)
    ensures r.Some? ==> r.value < |convs| && convs[r.value].participants == key
    ensures r.Some? ==> forall j :: 0 <= j < r.value ==> convs[j].participants != key
    ensures r.None? <==> forall j :: 0 <= j < |convs| ==> convs[j].participants != key
  {
    FindFirst(convs, (cv: Conversation) => cv.participants == key)
  }

  /** The conversations table after a call, and the id the call returns. */
  datatype Created = Created(conversations: seq<Conversation>, id: ConversationId)

  /** `createConversation(participants, isGroup, name)` at time `now`. A 1:1
      request returns the first conversation whose participants equal the
      sorted pair, when there is one, and inserts nothing; every other request
      inserts a new conversation with no last message. */
  function CreateConversation(convs: seq<Conversation>, participants: seq<UserId>, isGroup: bool,
                              name: Option<string>, now: int): (r: Created)
    ensures r.id < |r.conversations|
    ensures r.conversations[r.id].participants == StoredParticipants(participants, isGroup)
    ensures r.conversations == convs ||
      (r.id == |convs| &&
       r.conversations == convs + [Conversation(StoredParticipants(participants, isGroup), isGroup, name, None, now)])
    ensures !IsDirectRequest(participants, isGroup) ==>
      r.id == |convs| && |r.conversations| == |convs| + 1
    ensures IsDirectRequest(participants, isGroup) ==>
      (r.conversations == convs <==>
       exists j :: 0 <= j < |convs| && convs[j].participants == SortedPair(participants))
    ensures IsDirectRequest(participants, isGroup) ==>
      forall j :: 0 <= j < r.id ==> r.conversations[j].participants != SortedPair(participants)
  {
    var key := StoredParticipants(participants, isGroup);
    var existing := if IsDirectRequest(participants, isGroup) then FindByParticipants(convs, key) else None;
    match existing
    case Some(k) => Created(convs, k)
    case None => Created(convs + [Conversation(key, isGroup, name, None, now)], |convs|)
  }

  /** Every 1:1 conversation is stored with its pair sorted, and no two 1:1
      conversations share a pair: at most one 1:1 conversation per unordered
      pair of users. */
  predicate DirectPairsCanonical(convs: seq<Conversation>) {
    && (forall i :: 0 <= i < |convs| && IsDirect(convs[i]) ==>
          convs[i].participants[0] <= convs[i].participants[1])
    && (forall i, j :: 0 <= i < j < |convs| && IsDirect(convs[i]) && IsDirect(convs[j]) ==>
          convs[i].participants != convs[j].participants)
  }

  /** `createConversation` keeps at most one 1:1 conversation per pair. */
  lemma CreateKeepsPairsCanonical(convs: seq<Conversation>, participants: seq<UserId>, isGroup: bool,
                                  name: Option<string>, now: int)
    requires DirectPairsCanonical(convs)
    ensures DirectPairsCanonical(CreateConversation(convs, participants, isGroup, name, now).conversations)
  {
    var r := CreateConversation(convs, participants, isGroup, name, now);
    if r.conversations != convs {
      var n := |convs|;
      assert forall i :: 0 <= i < n ==> r.conversations[i] == convs[i];
      if IsDirect(r.conversations[n]) {
        assert IsDirectRequest(participants, isGroup);
        assert forall i :: 0 <= i < n ==> convs[i].participants != SortedPair(participants);
      }
    }
  }

  /** `sendMessage`'s patch of a conversation's last-message pointer and
      `updatedAt` keeps the stored 1:1 pairs canonical. */
  lemma PatchKeepsPairsCanonical(convs: seq<Conversation>, c: ConversationId, m: Option<MessageId>, now: int)
    requires DirectPairsCanonical(convs) && c < |convs|
    ensures DirectPairsCanonical(convs[c := convs[c].(lastMessage := m, updatedAt := now)])
  {
    var r := convs[c := convs[c].(lastMessage := m, updatedAt := now)];
    assert forall j :: 0 <= j < |r| ==> r[j].participants == convs[j].participants && r[j].isGroup == convs[j].isGroup;
  }

  /** 1:1 idempotence: a second call for the same pair, in either order,
      returns the id of the first and inserts nothing. */
  lemma CreateDirectIdempotent(convs: seq<Conversation>, a: UserId, b: UserId, swapped: bool,
                               name1: Option<string>, name2: Option<string>, now1: int, now2: int)
    ensures var first := CreateConversation(convs, [a, b], false, name1, now1);
            CreateConversation(first.conversations, if swapped then [b, a] else [a, b], false, name2, now2) == first
  {
    var first := CreateConversation(convs, [a, b], false, name1, now1);
    var key := SortedPair([a, b]);
    assert SortedPair([b, a]) == key;
    match FindByParticipants(convs, key)
    case Some(k) =>
    case None =>
      var after := first.conversations;
      assert after == convs + [Conversation(key, false, name1, None, now1)];
      FindFirstAt(after, (cv: Conversation) => cv.participants == key, |convs|);
  }

  /** The 1:1 lookup does not look at `isGroup`: when the first conversation
      whose participant list is the sorted pair is a group, a 1:1 request
      returns that group and inserts nothing. */
  lemma DirectLookupMatchesGroups(convs: seq<Conversation>, participants: seq<UserId>, name: Option<string>,
                                  now: int, k: nat)
    requires |participants| == 2
    requires FindByParticipants(convs, SortedPair(participants)) == Some(k)
    requires k < |convs| && convs[k].isGroup
    ensures CreateConversation(convs, participants, false, name, now) == Created(convs, k)
    ensures !IsDirect(convs[k])
  {
  }

  /** An instance: a two-member group is returned to a 1:1 request for its
      members given in the other order. */
  lemma DirectLookupGroupExample()
    ensures var team := Conversation([1, 2], true, Some("team"), None, 0);
            CreateConversation([team], [2, 1], false, None, 5) == Created([team], 0)
  {
    var team := Conversation([1, 2], true, Some("team"), None, 0);
    DirectLookupMatchesGroups([team], [2, 1], None, 5, 0);
  }

  // ---------------------------------------------------------------- markAsRead

  /** The counter table after `markAsRead(c, u)`: the pair's row is set to 0;
      without a row nothing happens. */
  function MarkAsRead(rows: seq<UnreadRow>, c: ConversationId, u: UserId): (r: seq<UnreadRow>)
    ensures |r| == |rows|
  {
    match FindUnread(rows, u, c)
    case Some(k) => rows[k := rows[k].(unreadCount := 0)]
    case None => rows
  }

  /** `markAsRead` resets the pair's counter to 0, creates no row, leaves every
      other counter unchanged, keeps the table's invariants and is idempotent. */
  lemma MarkAsReadEffect(rows: seq<UnreadRow>, c: ConversationId, u: UserId)
    requires OneRowPerPair(rows)
    ensures OneRowPerPair(MarkAsRead(rows, c, u))
    ensures NonNegative(rows) ==> NonNegative(MarkAsRead(rows, c, u))
    ensures GetUnreadCount(MarkAsRead(rows, c, u), u, c) == 0
    ensures forall u', c' :: (u' != u || c' != c) ==>
      GetUnreadCount(MarkAsRead(rows, c, u), u', c') == GetUnreadCount(rows, u', c')
    ensures forall u', c' :: HasRow(MarkAsRead(rows, c, u), u', c') <==> HasRow(rows, u', c')
    ensures MarkAsRead(MarkAsRead(rows, c, u), c, u) == MarkAsRead(rows, c, u)
  {
    match FindUnread(rows, u, c)
    case Some(k) =>
      var after := rows[k := rows[k].(unreadCount := 0)];
      SetCountKeepsPairs(rows, k, 0);
      forall u', c' ensures (u' != u || c' != c) ==> GetUnreadCount(after, u', c') == GetUnreadCount(rows, u', c')
        ensures HasRow(after, u', c') <==> HasRow(rows, u', c')
      {
        SetCountAt(rows, k, 0, u', c');
      }
      SetCountAt(rows, k, 0, u, c);
      FindFirstAt(after, (row: UnreadRow) => IsRowFor(row, u, c), k);
      assert after[k := after[k].(unreadCount := 0)] == after;
    case None =>
  }

  // ---------------------------------------------------------------- getConversations

  /** A conversation as `getConversations` reports it to one user. */
  datatype ConversationView = ConversationView(
    id: ConversationId,
    conversation: Conversation,
    unreadCount: int,
    lastMessageContent: Option<string>)

  /** The preview of a conversation: the content of the message its pointer
      names, or nothing when there is no pointer, no such message, or the
      content is empty (`lastMsg?.content || null`). Deleted messages are not
      masked. */
  function Preview(msgs: seq<Message>, pointer: Option<MessageId>): (r: Option<string>)
    ensures r.Some? <==> pointer.Some? && pointer.value < |msgs| && msgs[pointer.value].content != ""
    ensures r.Some? ==> r.value == msgs[pointer.value].content
  {
    match pointer
    case None => None
    case Some(m) => if m < |msgs| && msgs[m].content != "" then Some(msgs[m].content) else None
  }

  /** One conversation annotated for user `u`; the count is written the way the
      listing computes it, `unreadRecord?.unreadCount || 0`. */
  function Annotate(convs: seq<Conversation>, unreads: seq<UnreadRow>, msgs: seq<Message>, u: UserId, id: ConversationId): (v: ConversationView)
    requires id < |convs|
    ensures v.id == id && v.conversation == convs[id]
    ensures v.unreadCount == GetUnreadCount(unreads, u, id)
    ensures v.lastMessageContent == Preview(msgs, convs[id].lastMessage)
  {
    var row := FindUnread(unreads, u, id);
    var count := if row.Some? && unreads[row.value].unreadCount != 0 then unreads[row.value].unreadCount else 0;
    ConversationView(id, convs[id], count, Preview(msgs, convs[id].lastMessage))
  }

  /** The annotated conversations among the first `n` that include `u`. */
  function Listing(convs: seq<Conversation>, unreads: seq<UnreadRow>, msgs: seq<Message>, u: UserId, n: nat): (r: seq<ConversationView>)
    requires n <= |convs|
    ensures forall k :: 0 <= k < |r| ==> r[k].id < n && u in convs[r[k].id].participants && r[k] == Annotate(convs, unreads, msgs, u, r[k].id)
    ensures forall k, l :: 0 <= k < l < |r| ==> r[k].id < r[l].id
    ensures forall id :: 0 <= id < n && u in convs[id].participants ==> Annotate(convs, unreads, msgs, u, id) in r
    decreases n
  {
    if n == 0 then []
    else
      Listing(convs, unreads, msgs, u, n - 1) +
      (if u in convs[n - 1].participants then [Annotate(convs, unreads, msgs, u, n - 1)] else [])
  }

  /** `getConversations(u)`: exactly the conversations that include `u`, in
      creation order, each with `u`'s unread count (0 without a row, the same
      number `getUnreadCount` answers) and the preview of its last message. */
  function GetConversations(convs: seq<Conversation>, unreads: seq<UnreadRow>, msgs: seq<Message>, u: UserId): (r: seq<ConversationView>)
    ensures forall k :: 0 <= k < |r| ==>
      && r[k].id < |convs| && r[k].conversation == convs[r[k].id]
      && u in r[k].conversation.participants
      && r[k].unreadCount == GetUnreadCount(unreads, u, r[k].id)
      && r[k].lastMessageContent == Preview(msgs, r[k].conversation.lastMessage)
    ensures forall k, l :: 0 <= k < l < |r| ==> r[k].id < r[l].id
    ensures forall id :: 0 <= id < |convs| && u in convs[id].participants ==>
      exists k :: 0 <= k < |r| && r[k].id == id
  {
    var r := Listing(convs, unreads, msgs, u, |convs|);
    assert forall id :: 0 <= id < |convs| && u in convs[id].participants ==>
      Annotate(convs, unreads, msgs, u, id).id == id && Annotate(convs, unreads, msgs, u, id) in r;
    r
  }

  // ---------------------------------------------------------------- getConversation

  /** `getConversation(id)`: the row, or nothing for an unknown id. */
  function GetConversation(convs: seq<Conversation>, id: ConversationId): (r: Option<Conversation>)
    ensures r.Some? <==> id < |convs|
    ensures r.Some? ==> r.value == convs[id]
  {
    Get(convs, id)
  }
}
