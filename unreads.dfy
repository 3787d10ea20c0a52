/** The unread counter table `userConversationUnreads` and its one query. */
module Unreads {
  import opened Wrappers
  import opened Seqs
  import opened Schema

  /** `row` is the counter of user `u` in conversation `c`. */
  predicate IsRowFor(row: UnreadRow, u: UserId, c: ConversationId) {
    row.userId == u && row.conversationId == c
  }

  /** The first counter row for `(u, c)`: a `.first()` on `by_user_conversation`. */
  function FindUnread(rows: seq<UnreadRow>, u: UserId, c: ConversationId): (r: Option<nat>)
    ensures r.Some? ==> r.value < |rows| && IsRowFor(rows[r.value], u, c)
    ensures r.Some? ==> forall j :: 0 <= j < r.value ==> !IsRowFor(rows[j], u, c)
    ensures r.None? <==> forall j :: 0 <= j < |rows| ==> !IsRowFor(rows[j], u, c)
  {
    FindFirst(rows, (row: UnreadRow) => IsRowFor(row, u, c))
  }

  predicate HasRow(rows: seq<UnreadRow>, u: UserId, c: ConversationId) {
    exists k :: 0 <= k < |rows| && IsRowFor(rows[k], u, c)
  }

  /** At most one counter row per (user, conversation) pair. */
  predicate OneRowPerPair(rows: seq<UnreadRow>) {
    forall i, j :: 0 <= i < j < |rows| ==> !IsRowFor(rows[j], rows[i].userId, rows[i].conversationId)
  }

  /** Counters are never negative. */
  predicate NonNegative(rows: seq<UnreadRow>) {
    forall k :: 0 <= k < |rows| ==> rows[k].unreadCount >= 0
  }

  /** `getUnreadCount(u, c)`: the stored count of the pair's row, or 0 when the
      pair has no row. */
  function GetUnreadCount(rows: seq<UnreadRow>, u: UserId, c: ConversationId): (n: int)
    ensures !HasRow(rows, u, c) ==> n == 0
    ensures OneRowPerPair(rows) ==>
      forall k :: 0 <= k < |rows| && IsRowFor(rows[k], u, c) ==> n == rows[k].unreadCount
    ensures NonNegative(rows) ==> n >= 0
  {
    match FindUnread(rows, u, c)
    case Some(k) => rows[k].unreadCount
    case None => 0
  }

  /** With one row per pair, the count of `(u, c)` depends only on the rows of
      that pair: rows of other users or other conversations do not affect it. */
  lemma UnreadCountIsLocal(rows1: seq<UnreadRow>, rows2: seq<UnreadRow>, u: UserId, c: ConversationId)
    requires OneRowPerPair(rows1) && OneRowPerPair(rows2)
    requires forall row :: IsRowFor(row, u, c) ==> (row in rows1 <==> row in rows2)
    ensures GetUnreadCount(rows1, u, c) == GetUnreadCount(rows2, u, c)
  {
    if k1 :| 0 <= k1 < |rows1| && IsRowFor(rows1[k1], u, c) {
      assert rows1[k1] in rows2;
      var k2 :| 0 <= k2 < |rows2| && rows2[k2] == rows1[k1];
      assert IsRowFor(rows2[k2], u, c);
    }
  }

  /** Setting the count of row `k` keeps one row per pair. */
  lemma SetCountKeepsPairs(rows: seq<UnreadRow>, k: nat, n: int)
    requires OneRowPerPair(rows) && k < |rows|
    ensures OneRowPerPair(rows[k := rows[k].(unreadCount := n)])
  {
    var after := rows[k := rows[k].(unreadCount := n)];
    assert forall j :: 0 <= j < |rows| ==> after[j].userId == rows[j].userId && after[j].conversationId == rows[j].conversationId;
  }

  /** Setting the count of row `k` to `n` changes the count of that row's pair
      to `n` and no other count, and creates or removes no pair. */
  lemma SetCountAt(rows: seq<UnreadRow>, k: nat, n: int, u: UserId, c: ConversationId)
    requires OneRowPerPair(rows) && k < |rows|
    ensures HasRow(rows[k := rows[k].(unreadCount := n)], u, c) <==> HasRow(rows, u, c)
    ensures GetUnreadCount(rows[k := rows[k].(unreadCount := n)], u, c) ==
            if IsRowFor(rows[k], u, c) then n else GetUnreadCount(rows, u, c)
  {
    var after := rows[k := rows[k].(unreadCount := n)];
    SetCountKeepsPairs(rows, k, n);
    assert forall j :: 0 <= j < |rows| ==> (IsRowFor(after[j], u, c) <==> IsRowFor(rows[j], u, c));
    if IsRowFor(rows[k], u, c) {
      assert IsRowFor(after[k], u, c);
    } else if j :| 0 <= j < |rows| && IsRowFor(rows[j], u, c) {
      assert after[j] == rows[j];
    }
  }

  /** Appending a row for a pair that had none keeps one row per pair. */
  lemma AppendKeepsPairs(rows: seq<UnreadRow>, row: UnreadRow)
    requires OneRowPerPair(rows) && !HasRow(rows, row.userId, row.conversationId)
    ensures OneRowPerPair(rows + [row])
  {
    var after := rows + [row];
    forall i, j | 0 <= i < j < |after|
      ensures !IsRowFor(after[j], after[i].userId, after[i].conversationId)
    {
      if j == |rows| {
        assert after[i] == rows[i];
      }
    }
  }

  /** Appending a row for a pair that had none gives that pair the row's count
      and changes no other count. */
  lemma AppendAt(rows: seq<UnreadRow>, row: UnreadRow, u: UserId, c: ConversationId)
    requires OneRowPerPair(rows) && !HasRow(rows, row.userId, row.conversationId)
    ensures HasRow(rows + [row], u, c) <==> HasRow(rows, u, c) || IsRowFor(row, u, c)
    ensures GetUnreadCount(rows + [row], u, c) ==
            if IsRowFor(row, u, c) then row.unreadCount else GetUnreadCount(rows, u, c)
  {
    var after := rows + [row];
    AppendKeepsPairs(rows, row);
    if IsRowFor(row, u, c) {
      assert IsRowFor(after[|rows|], u, c);
    } else if j :| 0 <= j < |rows| && IsRowFor(rows[j], u, c) {
      assert after[j] == rows[j];
    } else {
      assert !HasRow(after, u, c);
    }
  }
}
