/** The separate reaction table of `reactions.ts`: one row per
    (message, user, reaction), toggled by insert and delete. It is independent
    of the reaction lists stored on messages. */
module Reactions {
  import opened Wrappers
  import opened Seqs
  import opened Schema

  /** The row for the triple: the `by_message` scan filtered on user and reaction, `.first()`. */
  function FindReactionRow(rows: seq<MessageReaction>, m: MessageId, u: UserId, reaction: string): (r: Option<nat>)
    ensures r.Some? ==> r.value < |rows| && rows[r.value] == MessageReaction(m, u, reaction)
    ensures r.Some? ==> forall j :: 0 <= j < r.value ==> rows[j] != MessageReaction(m, u, reaction)
    ensures r.None? <==> MessageReaction(m, u, reaction) !in rows
  {
    FindFirst(rows, (x: MessageReaction) => x == MessageReaction(m, u, reaction))
  }

  /** The table after `addReaction(m, u, reaction)`: the triple's row is
      deleted when it exists, and inserted otherwise. */
  function ToggleReactionRow(rows: seq<MessageReaction>, m: MessageId, u: UserId, reaction: string): seq<MessageReaction> {
    match FindReactionRow(rows, m, u, reaction)
    case Some(k) => RemoveAt(rows, k)
    case None => rows + [MessageReaction(m, u, reaction)]
  }

  /** The toggle flips the presence of its triple, leaves every other row in
      place and keeps at most one row per triple. */
  lemma ToggleRowEffect(rows: seq<MessageReaction>, m: MessageId, u: UserId, reaction: string)
    requires NoDuplicates(rows)
    ensures NoDuplicates(ToggleReactionRow(rows, m, u, reaction))
    ensures MessageReaction(m, u, reaction) in ToggleReactionRow(rows, m, u, reaction) <==>
      MessageReaction(m, u, reaction) !in rows
    ensures forall x :: x != MessageReaction(m, u, reaction) ==>
      (x in ToggleReactionRow(rows, m, u, reaction) <==> x in rows)
  {
    var t := MessageReaction(m, u, reaction);
    var r := ToggleReactionRow(rows, m, u, reaction);
    match FindReactionRow(rows, m, u, reaction)
    case Some(k) =>
      assert rows[k] == t;
      forall i, j | 0 <= i < j < |r| ensures r[i] != r[j] {
        var i', j' := if i < k then i else i + 1, if j < k then j else j + 1;
        assert r[i] == rows[i'] && r[j] == rows[j'] && i' < j';
      }
      forall x ensures x in r <==> x in rows && x != t {
        if x in r {
          var j :| 0 <= j < |r| && r[j] == x;
          var j' := if j < k then j else j + 1;
          assert rows[j'] == x && j' != k;
        }
        if x in rows && x != t {
          var j :| 0 <= j < |rows| && rows[j] == x;
          assert j != k;
          assert r[if j < k then j else j - 1] == x;
        }
      }
    case None =>
      assert t !in rows;
      forall i, j | 0 <= i < j < |r| ensures r[i] != r[j] {
        if j == |rows| {
          assert r[i] == rows[i];
        }
      }
  }

  /** Two toggles with the same arguments restore the set of triples; from a
      state without the triple they restore the table exactly. */
  lemma ToggleRowTwice(rows: seq<MessageReaction>, m: MessageId, u: UserId, reaction: string)
    requires NoDuplicates(rows)
    ensures forall x :: x in ToggleReactionRow(ToggleReactionRow(rows, m, u, reaction), m, u, reaction) <==> x in rows
    ensures MessageReaction(m, u, reaction) !in rows ==>
      ToggleReactionRow(ToggleReactionRow(rows, m, u, reaction), m, u, reaction) == rows
  {
    var once := ToggleReactionRow(rows, m, u, reaction);
    ToggleRowEffect(rows, m, u, reaction);
    ToggleRowEffect(once, m, u, reaction);
    var t := MessageReaction(m, u, reaction);
    if t !in rows {
      assert once == rows + [t];
      FindFirstAt(once, (x: MessageReaction) => x == MessageReaction(m, u, reaction), |rows|);
      assert RemoveAt(once, |rows|) == rows;
    }
  }

  /** The `by_message` index scan: the rows of message `m`, in table order. */
  function RowsOf(rows: seq<MessageReaction>, m: MessageId): seq<MessageReaction> {
    if rows == [] then []
    else (if rows[0].messageId == m then [rows[0]] else []) + RowsOf(rows[1..], m)
  }

  /** The scan keeps every row of `m` as often as the table holds it, and no other row. */
  lemma {:induction false} RowsOfCounts(rows: seq<MessageReaction>, m: MessageId)
    ensures forall x :: multiset(RowsOf(rows, m))[x] == if x.messageId == m then multiset(rows)[x] else 0
    ensures |RowsOf(rows, m)| <= |rows|
  {
    if rows != [] {
      assert rows == [rows[0]] + rows[1..];
      RowsOfCounts(rows[1..], m);
    }
  }

  /** The scan keeps table order: it distributes over concatenation. */
  lemma {:induction false} RowsOfAppend(a: seq<MessageReaction>, b: seq<MessageReaction>, m: MessageId)
    ensures RowsOf(a + b, m) == RowsOf(a, m) + RowsOf(b, m)
  {
    if a != [] {
      assert (a + b)[1..] == a[1..] + b;
      RowsOfAppend(a[1..], b, m);
    } else {
      assert a + b == b;
    }
  }

  /** `getReactions(m)`: the rows of message `m`, in order. Each row of `m`
      appears as often as it does in the table, and no other row appears. */
  function GetReactions(rows: seq<MessageReaction>, m: MessageId): (r: seq<MessageReaction>)
    ensures forall x :: x in r <==> x in rows && x.messageId == m
    ensures forall x :: multiset(r)[x] == if x.messageId == m then multiset(rows)[x] else 0
    ensures |r| <= |rows|
  {
    RowsOfCounts(rows, m);
    RowsOf(rows, m)
  }

  /** The listing keeps table order: the rows of a table split in two are the
      rows of its first part followed by those of its second. */
  lemma GetReactionsAppend(a: seq<MessageReaction>, b: seq<MessageReaction>, m: MessageId)
    ensures GetReactions(a + b, m) == GetReactions(a, m) + GetReactions(b, m)
  {
    RowsOfAppend(a, b, m);
  }

  /** A table without duplicate rows gives a listing without duplicates. */
  lemma {:induction false} GetReactionsNoDuplicates(rows: seq<MessageReaction>, m: MessageId)
    requires NoDuplicates(rows)
    ensures NoDuplicates(GetReactions(rows, m))
  {
    if rows != [] {
      var tail := rows[1..];
      assert NoDuplicates(tail) by {
        forall i, j | 0 <= i < j < |tail| ensures tail[i] != tail[j] {
          assert tail[i] == rows[i + 1] && tail[j] == rows[j + 1];
        }
      }
      GetReactionsNoDuplicates(tail, m);
      assert GetReactions(rows, m) == (if rows[0].messageId == m then [rows[0]] else []) + GetReactions(tail, m);
      if rows[0].messageId == m {
        assert rows[0] !in tail by {
          forall j | 0 <= j < |tail| ensures tail[j] != rows[0] {
            assert tail[j] == rows[j + 1];
          }
        }
        NoDuplicatesPrepend(rows[0], GetReactions(tail, m));
      }
    }
  }
}
