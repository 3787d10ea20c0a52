/** The message store: the query and the table updates of `messages.ts`.
    The mutations themselves run as methods of `Database.Store`; this module
    states what each one does to its tables. */
module Messages {
  import opened Wrappers
  import opened Seqs
  import opened Schema
  import opened Unreads

  // ---------------------------------------------------------------- getMessages

  /** `getMessages(c)`: the messages of conversation `c` with their ids, in
      ascending creation order, soft-deleted ones included. */
  function GetMessages(ms: seq<Message>, c: ConversationId): (r: seq<(MessageId, Message)>)
    ensures forall k :: 0 <= k < |r| ==> r[k].0 < |ms| && r[k].1 == ms[r[k].0] && r[k].1.conversationId == c
    ensures forall k, l :: 0 <= k < l < |r| ==> r[k].0 < r[l].0
    ensures forall id :: 0 <= id < |ms| && ms[id].conversationId == c ==> (id, ms[id]) in r
    decreases |ms|
  {
    if ms == [] then []
    else
      var n := |ms| - 1;
      var earlier := GetMessages(ms[..n], c);
      assert forall id :: 0 <= id < n ==> ms[..n][id] == ms[id];
      earlier + (if ms[n].conversationId == c then [(n, ms[n])] else [])
  }

  // ---------------------------------------------------------------- sendMessage

  /** The message `sendMessage` inserts: no content check, sent at `now`, not
      deleted, no reactions, never edited. */
  function NewMessage(c: ConversationId, sender: UserId, content: string, replyTo: Option<MessageId>, now: int): Message {
    Message(c, sender, content, now, false, [], None, replyTo)
  }

  /** One step of the fan-out: adds one to the counter of `(p, c)`, creating
      the row at 1 when there is none. */
  function Bump(rows: seq<UnreadRow>, p: UserId, c: ConversationId): seq<UnreadRow> {
    match FindUnread(rows, p, c)
    case Some(k) => rows[k := rows[k].(unreadCount := rows[k].unreadCount + 1)]
    case None => rows + [UnreadRow(p, c, 1)]
  }

  /** The counter table after `sendMessage` has walked `participants` in order,
      bumping every entry that is not the sender. */
  function FanOut(rows: seq<UnreadRow>, participants: seq<UserId>, sender: UserId, c: ConversationId): seq<UnreadRow>
    decreases |participants|
  {
    if participants == [] then rows
    else
      var p := participants[|participants| - 1];
      var earlier := FanOut(rows, participants[..|participants| - 1], sender, c);
      if p == sender then earlier else Bump(earlier, p, c)
  }

  /** One step of the fan-out, seen from one pair `(u, c')`. */
  lemma BumpAt(rows: seq<UnreadRow>, p: UserId, c: ConversationId, u: UserId, c': ConversationId)
    requires OneRowPerPair(rows)
    ensures GetUnreadCount(Bump(rows, p, c), u, c') ==
      GetUnreadCount(rows, u, c') + (if u == p && c' == c then 1 else 0)
    ensures HasRow(Bump(rows, p, c), u, c') <==> HasRow(rows, u, c') || (u == p && c' == c)
  {
    match FindUnread(rows, p, c)
    case Some(k) =>
      SetCountAt(rows, k, rows[k].unreadCount + 1, u, c');
      if u == p && c' == c {
        assert IsRowFor(rows[k], u, c');
      }
    case None =>
      AppendAt(rows, UnreadRow(p, c, 1), u, c');
  }

  /** One step of the fan-out adds one to the counter of `(p, c)` alone and
      keeps the invariants of the table. */
  lemma BumpEffect(rows: seq<UnreadRow>, p: UserId, c: ConversationId)
    requires OneRowPerPair(rows)
    ensures OneRowPerPair(Bump(rows, p, c))
    ensures NonNegative(rows) ==> NonNegative(Bump(rows, p, c))
    ensures forall u, c' :: (GetUnreadCount(Bump(rows, p, c), u, c') ==
      GetUnreadCount(rows, u, c') + (if u == p && c' == c then 1 else 0))
    ensures forall u, c' :: (HasRow(Bump(rows, p, c), u, c') <==> HasRow(rows, u, c') || (u == p && c' == c))
  {
    match FindUnread(rows, p, c) {
      case Some(k) => SetCountKeepsPairs(rows, k, rows[k].unreadCount + 1);
      case None => AppendKeepsPairs(rows, UnreadRow(p, c, 1));
    }
    forall u, c' ensures GetUnreadCount(Bump(rows, p, c), u, c') ==
      GetUnreadCount(rows, u, c') + (if u == p && c' == c then 1 else 0)
      ensures HasRow(Bump(rows, p, c), u, c') <==> HasRow(rows, u, c') || (u == p && c' == c)
    {
      BumpAt(rows, p, c, u, c');
    }
  }

  /** The fan-out of `sendMessage`: every participant-list entry other than the
      sender adds one to that user's counter in `c` (a row is created when there
      is none), the sender's counter is unchanged, counters of other
      conversations are unchanged, and the invariants of the table are kept. */
  lemma {:induction false} FanOutEffect(rows: seq<UnreadRow>, participants: seq<UserId>, sender: UserId, c: ConversationId)
    requires OneRowPerPair(rows)
    ensures OneRowPerPair(FanOut(rows, participants, sender, c))
    ensures NonNegative(rows) ==> NonNegative(FanOut(rows, participants, sender, c))
    ensures forall u, c' :: (GetUnreadCount(FanOut(rows, participants, sender, c), u, c') ==
      GetUnreadCount(rows, u, c') + (if c' == c && u != sender then Occurrences(participants, u) else 0))
    ensures forall u, c' :: (HasRow(FanOut(rows, participants, sender, c), u, c') <==>
      HasRow(rows, u, c') || (c' == c && u != sender && u in participants))
    decreases |participants|
  {
    if participants != [] {
      var n := |participants| - 1;
      var init := participants[..n];
      var p := participants[n];
      assert participants == init + [p];
      FanOutEffect(rows, init, sender, c);
      var earlier := FanOut(rows, init, sender, c);
      if p != sender {
        BumpEffect(earlier, p, c);
      }
      forall u ensures (u in participants <==> u in init || u == p) {
      }
    }
  }

  /** With a participant list that names nobody twice, every participant other
      than the sender gets exactly one more unread message. */
  lemma {:induction false} FanOutDistinct(rows: seq<UnreadRow>, participants: seq<UserId>, sender: UserId, c: ConversationId, u: UserId)
    requires OneRowPerPair(rows) && NoDuplicates(participants)
    requires u in participants && u != sender
    ensures GetUnreadCount(FanOut(rows, participants, sender, c), u, c) == GetUnreadCount(rows, u, c) + 1
  {
    FanOutEffect(rows, participants, sender, c);
    OccurrencesOfDistinct(participants, u);
  }

  lemma {:induction false} OccurrencesOfDistinct(s: seq<UserId>, x: UserId)
    requires NoDuplicates(s) && x in s
    ensures Occurrences(s, x) == 1
    decreases |s|
  {
    var n := |s| - 1;
    assert s == s[..n] + [s[n]];
    if s[n] == x {
      assert x !in s[..n];
    } else {
      OccurrencesOfDistinct(s[..n], x);
    }
  }

  // ---------------------------------------------------------------- deleteMessage

  /** The messages table after `deleteMessage(id, user)`: only the sender's
      request sets `isDeleted`; content, reactions and every other field and
      message are kept. */
  function SoftDelete(ms: seq<Message>, id: MessageId, user: UserId): (r: seq<Message>)
    ensures |r| == |ms|
    ensures forall j :: 0 <= j < |ms| && j != id ==> r[j] == ms[j]
    ensures id < |ms| ==> r[id] == ms[id].(isDeleted := r[id].isDeleted)
    ensures id < |ms| ==> (r[id].isDeleted <==> ms[id].isDeleted || ms[id].senderId == user)
  {
    if id < |ms| && ms[id].senderId == user then ms[id := ms[id].(isDeleted := true)] else ms
  }

  /** Deleting twice is deleting once. */
  lemma SoftDeleteIdempotent(ms: seq<Message>, id: MessageId, user: UserId)
    ensures SoftDelete(SoftDelete(ms, id, user), id, user) == SoftDelete(ms, id, user)
  {
  }

  // ---------------------------------------------------------------- updateMessage

  /** The messages table after `updateMessage(id, content, user)`: the sender's
      request replaces the content and stamps `editedAt`, whether or not the
      message is soft-deleted; anyone else's request, or a missing id, changes
      nothing. */
  function Edit(ms: seq<Message>, id: MessageId, content: string, user: UserId, now: int): (r: seq<Message>)
    ensures |r| == |ms|
    ensures forall j :: 0 <= j < |ms| && j != id ==> r[j] == ms[j]
    ensures id < |ms| && ms[id].senderId == user ==>
      r[id] == ms[id].(content := content, editedAt := Some(now))
    ensures !(id < |ms| && ms[id].senderId == user) ==> r == ms
  {
    if id < |ms| && ms[id].senderId == user
    then ms[id := ms[id].(content := content, editedAt := Some(now))]
    else ms
  }

  /** A soft-deleted message can still be edited by its sender; it stays deleted. */
  lemma EditAfterSoftDelete(ms: seq<Message>, id: MessageId, user: UserId, content: string, now: int)
    requires id < |ms| && ms[id].senderId == user
    ensures var r := Edit(SoftDelete(ms, id, user), id, content, user, now);
      r[id].isDeleted && r[id].content == content && r[id].editedAt == Some(now)
  {
  }

  // ---------------------------------------------------------------- addReaction

  /** The entry for `emoji`: `findIndex(r => r.emoji === emoji)`. */
  function FindEmoji(rs: seq<Reaction>, emoji: string): Option<nat> {
    FindFirst(rs, (r: Reaction) => r.emoji == emoji)
  }

  /** `userIds.filter(id => id !== u)`. */
  function WithoutUser(ids: seq<UserId>, u: UserId): (r: seq<UserId>)
    ensures forall x :: x in r <==> x in ids && x != u
    ensures |r| <= |ids|
  {
    if ids == [] then []
    else (if ids[0] == u then [] else [ids[0]]) + WithoutUser(ids[1..], u)
  }

  lemma {:induction false} WithoutUserNoDuplicates(ids: seq<UserId>, u: UserId)
    requires NoDuplicates(ids)
    ensures NoDuplicates(WithoutUser(ids, u))
  {
    if ids != [] {
      assert NoDuplicates(ids[1..]) by {
        forall i, j | 0 <= i < j < |ids| - 1 ensures ids[1..][i] != ids[1..][j] {
          assert ids[1..][i] == ids[i + 1] && ids[1..][j] == ids[j + 1];
        }
      }
      WithoutUserNoDuplicates(ids[1..], u);
      if ids[0] != u {
        assert ids[0] !in ids[1..];
        NoDuplicatesPrepend(ids[0], WithoutUser(ids[1..], u));
      }
    }
  }

  lemma {:induction false} WithoutAbsentUser(ids: seq<UserId>, u: UserId)
    requires u !in ids
    ensures WithoutUser(ids, u) == ids
  {
    if ids != [] {
      WithoutAbsentUser(ids[1..], u);
      assert ids == [ids[0]] + ids[1..];
    }
  }

  lemma {:induction false} WithoutUserAppend(ids: seq<UserId>, extra: seq<UserId>, u: UserId)
    ensures WithoutUser(ids + extra, u) == WithoutUser(ids, u) + WithoutUser(extra, u)
  {
    if ids != [] {
      assert (ids + extra)[1..] == ids[1..] + extra;
      WithoutUserAppend(ids[1..], extra, u);
    } else {
      assert ids + extra == extra;
    }
  }

  /** The toggle of `addReaction` on a message's reaction list: remove the user
      from the emoji's entry when present (dropping an entry left empty), add
      them otherwise (creating the entry at the end when the emoji is new). */
  function ToggleReaction(rs: seq<Reaction>, emoji: string, u: UserId): seq<Reaction> {
    match FindEmoji(rs, emoji)
    case None => rs + [Reaction(emoji, [u])]
    case Some(k) =>
      if u in rs[k].userIds then
        var remaining := WithoutUser(rs[k].userIds, u);
        if remaining == [] then RemoveAt(rs, k) else rs[k := rs[k].(userIds := remaining)]
      else rs[k := rs[k].(userIds := rs[k].userIds + [u])]
  }

  /** Emoji keys are unique, and every entry names at least one user, none twice. */
  predicate ReactionsWellFormed(rs: seq<Reaction>) {
    && (forall i, j :: 0 <= i < j < |rs| ==> rs[i].emoji != rs[j].emoji)
    && (forall k :: 0 <= k < |rs| ==> rs[k].userIds != [] && NoDuplicates(rs[k].userIds))
  }

  /** User `u` holds the reaction `emoji`. */
  predicate HasReacted(rs: seq<Reaction>, emoji: string, u: UserId) {
    exists k :: 0 <= k < |rs| && rs[k].emoji == emoji && u in rs[k].userIds
  }

  /** The entries for emojis other than `emoji`, in order. */
  function OtherEmojis(rs: seq<Reaction>, emoji: string): seq<Reaction> {
    if rs == [] then []
    else (if rs[0].emoji == emoji then [] else [rs[0]]) + OtherEmojis(rs[1..], emoji)
  }

  /** `OtherEmojis` keeps exactly the entries whose emoji differs. */
  lemma {:induction false} OtherEmojisMembers(rs: seq<Reaction>, emoji: string)
    ensures forall x :: x in OtherEmojis(rs, emoji) <==> x in rs && x.emoji != emoji
  {
    if rs != [] {
      OtherEmojisMembers(rs[1..], emoji);
      assert rs == [rs[0]] + rs[1..];
    }
  }

  lemma {:induction false} OtherEmojisAppend(a: seq<Reaction>, b: seq<Reaction>, emoji: string)
    ensures OtherEmojis(a + b, emoji) == OtherEmojis(a, emoji) + OtherEmojis(b, emoji)
  {
    if a != [] {
      var head := if a[0].emoji == emoji then [] else [a[0]];
      calc {
        OtherEmojis(a + b, emoji);
        { assert (a + b)[0] == a[0] && (a + b)[1..] == a[1..] + b; }
        head + OtherEmojis(a[1..] + b, emoji);
        { OtherEmojisAppend(a[1..], b, emoji); }
        head + (OtherEmojis(a[1..], emoji) + OtherEmojis(b, emoji));
        OtherEmojis(a, emoji) + OtherEmojis(b, emoji);
      }
    } else {
      assert a + b == b;
    }
  }

  /** An entry for `emoji` is invisible to `OtherEmojis`. */
  lemma {:induction false} OtherEmojisSkip(a: seq<Reaction>, x: Reaction, b: seq<Reaction>, emoji: string)
    requires x.emoji == emoji
    ensures OtherEmojis(a + [x] + b, emoji) == OtherEmojis(a + b, emoji)
  {
    if a == [] {
      assert a + [x] + b == [x] + b && a + b == b;
      assert ([x] + b)[1..] == b;
    } else {
      assert (a + [x] + b)[1..] == a[1..] + [x] + b;
      assert (a + b)[1..] == a[1..] + b;
      OtherEmojisSkip(a[1..], x, b, emoji);
    }
  }

  /** Replacing or removing an entry for `emoji` leaves the other entries alone. */
  lemma OtherEmojisAround(rs: seq<Reaction>, k: nat, x: Reaction, emoji: string)
    requires k < |rs| && rs[k].emoji == emoji && x.emoji == emoji
    ensures OtherEmojis(rs[k := x], emoji) == OtherEmojis(rs, emoji)
    ensures OtherEmojis(RemoveAt(rs, k), emoji) == OtherEmojis(rs, emoji)
  {
    assert rs == rs[..k] + [rs[k]] + rs[k + 1..];
    assert rs[k := x] == rs[..k] + [x] + rs[k + 1..];
    OtherEmojisSkip(rs[..k], rs[k], rs[k + 1..], emoji);
    OtherEmojisSkip(rs[..k], x, rs[k + 1..], emoji);
  }

  /** The toggle keeps the reaction list well formed. */
  lemma ToggleKeepsWellFormed(rs: seq<Reaction>, emoji: string, u: UserId)
    requires ReactionsWellFormed(rs)
    ensures ReactionsWellFormed(ToggleReaction(rs, emoji, u))
  {
    var r := ToggleReaction(rs, emoji, u);
    match FindEmoji(rs, emoji)
    case None =>
    case Some(k) =>
      if u in rs[k].userIds {
        var remaining := WithoutUser(rs[k].userIds, u);
        WithoutUserNoDuplicates(rs[k].userIds, u);
        if remaining == [] {
          assert r == RemoveAt(rs, k);
        }
      } else {
        var ids := rs[k].userIds + [u];
        assert NoDuplicates(ids) by {
          forall i, j | 0 <= i < j < |ids| ensures ids[i] != ids[j] {
            if j == |ids| - 1 {
              assert ids[i] in rs[k].userIds;
            }
          }
        }
      }
  }

  /** Entries for other emojis keep their content and their relative order. */
  lemma ToggleKeepsOtherEmojis(rs: seq<Reaction>, emoji: string, u: UserId)
    ensures OtherEmojis(ToggleReaction(rs, emoji, u), emoji) == OtherEmojis(rs, emoji)
  {
    match FindEmoji(rs, emoji)
    case None =>
      OtherEmojisAppend(rs, [Reaction(emoji, [u])], emoji);
      assert [Reaction(emoji, [u])][1..] == [];
    case Some(k) =>
      OtherEmojisAround(rs, k, rs[k].(userIds := WithoutUser(rs[k].userIds, u)), emoji);
      OtherEmojisAround(rs, k, rs[k].(userIds := rs[k].userIds + [u]), emoji);
  }

  /** The toggle flips whether `u` holds `emoji` and changes no other
      (emoji, user) reaction. */
  lemma ToggleFlips(rs: seq<Reaction>, emoji: string, u: UserId)
    requires ReactionsWellFormed(rs)
    ensures HasReacted(ToggleReaction(rs, emoji, u), emoji, u) <==> !HasReacted(rs, emoji, u)
    ensures forall e, v :: (e != emoji || v != u) ==>
      (HasReacted(ToggleReaction(rs, emoji, u), e, v) <==> HasReacted(rs, e, v))
  {
    ToggleFlipsAt(rs, emoji, u, emoji, u);
    forall e, v | e != emoji || v != u
      ensures HasReacted(ToggleReaction(rs, emoji, u), e, v) <==> HasReacted(rs, e, v)
    {
      ToggleFlipsAt(rs, emoji, u, e, v);
    }
  }

  lemma ToggleFlipsAt(rs: seq<Reaction>, emoji: string, u: UserId, e: string, v: UserId)
    requires ReactionsWellFormed(rs)
    ensures HasReacted(ToggleReaction(rs, emoji, u), e, v) <==>
      if e == emoji && v == u then !HasReacted(rs, e, v) else HasReacted(rs, e, v)
  {
    match FindEmoji(rs, emoji)
    case None =>
      ToggleNewAt(rs, emoji, u, e, v);
    case Some(k) =>
      if u !in rs[k].userIds {
        ToggleReplaceAt(rs, k, rs[k].userIds + [u], emoji, u, e, v);
      } else if WithoutUser(rs[k].userIds, u) == [] {
        ToggleDropAt(rs, k, emoji, u, e, v);
      } else {
        ToggleReplaceAt(rs, k, WithoutUser(rs[k].userIds, u), emoji, u, e, v);
      }
  }

  /** The case of a new emoji: a fresh entry `{emoji, [u]}` goes to the end. */
  lemma ToggleNewAt(rs: seq<Reaction>, emoji: string, u: UserId, e: string, v: UserId)
    requires FindEmoji(rs, emoji).None?
    ensures HasReacted(rs + [Reaction(emoji, [u])], e, v) <==>
      (e == emoji && v == u) || HasReacted(rs, e, v)
    ensures !HasReacted(rs, emoji, u)
  {
    var r := rs + [Reaction(emoji, [u])];
    if e == emoji && v == u {
      assert r[|rs|].emoji == e && v in r[|rs|].userIds;
    }
    if HasReacted(rs, e, v) {
      var j :| 0 <= j < |rs| && rs[j].emoji == e && v in rs[j].userIds;
      assert r[j] == rs[j];
    }
    if HasReacted(r, e, v) && !(e == emoji && v == u) {
      var j :| 0 <= j < |r| && r[j].emoji == e && v in r[j].userIds;
      assert j < |rs| && r[j] == rs[j];
    }
  }

  /** The cases that keep entry `k` for `emoji` and give it the user list `ids`,
      which differs from the old one in `u` alone. */
  lemma ToggleReplaceAt(rs: seq<Reaction>, k: nat, ids: seq<UserId>, emoji: string, u: UserId, e: string, v: UserId)
    requires ReactionsWellFormed(rs) && k < |rs| && rs[k].emoji == emoji
    requires forall x :: x != u ==> (x in ids <==> x in rs[k].userIds)
    requires u in ids <==> u !in rs[k].userIds
    ensures HasReacted(rs[k := rs[k].(userIds := ids)], e, v) <==>
      if e == emoji && v == u then !HasReacted(rs, e, v) else HasReacted(rs, e, v)
  {
    var r := rs[k := rs[k].(userIds := ids)];
    if HasReacted(rs, e, v) {
      var j :| 0 <= j < |rs| && rs[j].emoji == e && v in rs[j].userIds;
      if j != k {
        assert r[j] == rs[j];
      } else if e == emoji && v == u {
        assert u in rs[k].userIds;
      }
    }
    if HasReacted(r, e, v) {
      var j :| 0 <= j < |r| && r[j].emoji == e && v in r[j].userIds;
      if j != k {
        assert r[j] == rs[j];
      }
    }
    if e == emoji && v == u && !HasReacted(rs, e, v) {
      assert r[k].emoji == e && v in r[k].userIds;
    }
    if !(e == emoji && v == u) && HasReacted(rs, e, v) {
      var j :| 0 <= j < |rs| && rs[j].emoji == e && v in rs[j].userIds;
      assert r[j].emoji == e && v in r[j].userIds;
    }
  }

  /** The case that removes the last user of entry `k`, and with it the entry. */
  lemma ToggleDropAt(rs: seq<Reaction>, k: nat, emoji: string, u: UserId, e: string, v: UserId)
    requires ReactionsWellFormed(rs) && k < |rs| && rs[k].emoji == emoji
    requires u in rs[k].userIds && WithoutUser(rs[k].userIds, u) == []
    ensures HasReacted(RemoveAt(rs, k), e, v) <==>
      if e == emoji && v == u then !HasReacted(rs, e, v) else HasReacted(rs, e, v)
  {
    var r := RemoveAt(rs, k);
    assert HasReacted(rs, emoji, u);
    if HasReacted(rs, e, v) && !(e == emoji && v == u) {
      var j :| 0 <= j < |rs| && rs[j].emoji == e && v in rs[j].userIds;
      if j < k {
        assert r[j] == rs[j];
      } else if j > k {
        assert r[j - 1] == rs[j];
      }
    }
    if HasReacted(r, e, v) {
      var j :| 0 <= j < |r| && r[j].emoji == e && v in r[j].userIds;
      if j < k {
        assert r[j] == rs[j];
        assert rs[j].emoji != rs[k].emoji;
      } else {
        assert r[j] == rs[j + 1];
        assert rs[j + 1].emoji != rs[k].emoji;
      }
    }
  }

  /** From a state where `u` does not hold `emoji`, toggling twice restores the
      reaction list exactly. */
  lemma ToggleTwiceRestores(rs: seq<Reaction>, emoji: string, u: UserId)
    requires ReactionsWellFormed(rs) && !HasReacted(rs, emoji, u)
    ensures ToggleReaction(ToggleReaction(rs, emoji, u), emoji, u) == rs
  {
    var once := ToggleReaction(rs, emoji, u);
    match FindEmoji(rs, emoji)
    case None =>
      FindFirstAt(once, (r: Reaction) => r.emoji == emoji, |rs|);
      assert once[|rs|].userIds == [u];
      assert WithoutUser([u], u) == [];
      assert RemoveAt(once, |rs|) == rs;
    case Some(k) =>
      var ids := rs[k].userIds;
      assert u !in ids;
      FindFirstAt(once, (r: Reaction) => r.emoji == emoji, k);
      WithoutUserAppend(ids, [u], u);
      WithoutAbsentUser(ids, u);
      assert WithoutUser([u], u) == [];
      assert WithoutUser(ids + [u], u) == ids;
      assert once[k := once[k].(userIds := ids)] == rs;
  }

  /** From any well-formed state, toggling twice restores who holds which emoji. */
  lemma ToggleTwiceSameHolders(rs: seq<Reaction>, emoji: string, u: UserId)
    requires ReactionsWellFormed(rs)
    ensures forall e, v :: HasReacted(ToggleReaction(ToggleReaction(rs, emoji, u), emoji, u), e, v) <==> HasReacted(rs, e, v)
  {
    ToggleFlips(rs, emoji, u);
    ToggleKeepsWellFormed(rs, emoji, u);
    ToggleFlips(ToggleReaction(rs, emoji, u), emoji, u);
  }
}
