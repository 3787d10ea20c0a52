/** Typing presence of `typing.ts`: one timestamp row per (conversation, user),
    written by `setTyping` and filtered by age when read; reads never delete. */
module Typing {
  import opened Wrappers
  import opened Seqs
  import opened Schema

  /** An indicator counts as live while `now - timestamp <= 2000` ms. */
  const LivenessWindowMs := 2000

  predicate IsIndicatorFor(t: TypingIndicator, c: ConversationId, u: UserId) {
    t.conversationId == c && t.userId == u
  }

  /** The indicator of `u` in `c`: the `by_conversation` scan filtered on the user, `.first()`. */
  function FindIndicator(rows: seq<TypingIndicator>, c: ConversationId, u: UserId): (r: Option<nat>)
    ensures r.Some? ==> r.value < |rows| && IsIndicatorFor(rows[r.value], c, u)
    ensures r.Some? ==> forall j :: 0 <= j < r.value ==> !IsIndicatorFor(rows[j], c, u)
    ensures r.None? <==> forall j :: 0 <= j < |rows| ==> !IsIndicatorFor(rows[j], c, u)
  {
    FindFirst(rows, (t: TypingIndicator) => IsIndicatorFor(t, c, u))
  }

  /** At most one indicator per (conversation, user). */
  predicate OneIndicatorPerPair(rows: seq<TypingIndicator>) {
    forall i, j :: 0 <= i < j < |rows| ==> !IsIndicatorFor(rows[j], rows[i].conversationId, rows[i].userId)
  }

  /** The indicator table after `setTyping(c, u, isTyping)` at `now`: typing
      inserts a fresh indicator or refreshes the existing one's timestamp; not
      typing deletes the indicator if there is one. */
  function SetTyping(rows: seq<TypingIndicator>, c: ConversationId, u: UserId, isTyping: bool, now: int): seq<TypingIndicator> {
    var existing := FindIndicator(rows, c, u);
    if isTyping then
      match existing
      case None => rows + [TypingIndicator(c, u, now)]
      case Some(k) => rows[k := rows[k].(timestamp := now)]
    else
      match existing
      case None => rows
      case Some(k) => RemoveAt(rows, k)
  }

  /** The indicators of every pair other than `(c, u)`, in order. */
  function OtherIndicators(rows: seq<TypingIndicator>, c: ConversationId, u: UserId): seq<TypingIndicator> {
    if rows == [] then []
    else (if IsIndicatorFor(rows[0], c, u) then [] else [rows[0]]) + OtherIndicators(rows[1..], c, u)
  }

  /** An indicator of `(c, u)` is invisible to `OtherIndicators`. */
  lemma {:induction false} OtherIndicatorsSkip(a: seq<TypingIndicator>, x: TypingIndicator, b: seq<TypingIndicator>, c: ConversationId, u: UserId)
    requires IsIndicatorFor(x, c, u)
    ensures OtherIndicators(a + [x] + b, c, u) == OtherIndicators(a + b, c, u)
  {
    if a == [] {
      assert a + [x] + b == [x] + b && a + b == b;
      assert ([x] + b)[1..] == b;
    } else {
      assert (a + [x] + b)[1..] == a[1..] + [x] + b;
      assert (a + b)[1..] == a[1..] + b;
      OtherIndicatorsSkip(a[1..], x, b, c, u);
    }
  }

  /** `setTyping` leaves every other indicator, and their order, unchanged;
      afterwards `(c, u)` has exactly one indicator, stamped `now`, when typing,
      and none when not; one indicator per pair is kept. */
  lemma SetTypingEffect(rows: seq<TypingIndicator>, c: ConversationId, u: UserId, isTyping: bool, now: int)
    requires OneIndicatorPerPair(rows)
    ensures OneIndicatorPerPair(SetTyping(rows, c, u, isTyping, now))
    ensures OtherIndicators(SetTyping(rows, c, u, isTyping, now), c, u) == OtherIndicators(rows, c, u)
    ensures isTyping ==> TypingIndicator(c, u, now) in SetTyping(rows, c, u, isTyping, now)
    ensures forall t :: t in SetTyping(rows, c, u, isTyping, now) && IsIndicatorFor(t, c, u) ==>
      isTyping && t.timestamp == now
  {
    match FindIndicator(rows, c, u)
    case None =>
      if isTyping {
        InsertIndicatorEffect(rows, c, u, now);
      }
    case Some(k) =>
      if isTyping {
        RefreshIndicatorEffect(rows, k, c, u, now);
      } else {
        DeleteIndicatorEffect(rows, k, c, u);
      }
  }

  lemma InsertIndicatorEffect(rows: seq<TypingIndicator>, c: ConversationId, u: UserId, now: int)
    requires OneIndicatorPerPair(rows) && FindIndicator(rows, c, u).None?
    ensures var r := rows + [TypingIndicator(c, u, now)];
      && OneIndicatorPerPair(r)
      && OtherIndicators(r, c, u) == OtherIndicators(rows, c, u)
      && forall t :: t in r && IsIndicatorFor(t, c, u) ==> t.timestamp == now
  {
    var x := TypingIndicator(c, u, now);
    var r := rows + [x];
    assert r == rows + [x] + [];
    OtherIndicatorsSkip(rows, x, [], c, u);
    assert rows + [] == rows;
    forall i, j | 0 <= i < j < |r| ensures !IsIndicatorFor(r[j], r[i].conversationId, r[i].userId) {
      if j == |rows| {
        assert r[i] == rows[i];
      }
    }
  }

  lemma RefreshIndicatorEffect(rows: seq<TypingIndicator>, k: nat, c: ConversationId, u: UserId, now: int)
    requires OneIndicatorPerPair(rows) && k < |rows| && IsIndicatorFor(rows[k], c, u)
    ensures var r := rows[k := rows[k].(timestamp := now)];
      && OneIndicatorPerPair(r)
      && OtherIndicators(r, c, u) == OtherIndicators(rows, c, u)
      && r[k] == TypingIndicator(c, u, now)
      && forall t :: t in r && IsIndicatorFor(t, c, u) ==> t.timestamp == now
  {
    var x := rows[k].(timestamp := now);
    var r := rows[k := x];
    assert rows == rows[..k] + [rows[k]] + rows[k + 1..];
    assert r == rows[..k] + [x] + rows[k + 1..];
    OtherIndicatorsSkip(rows[..k], rows[k], rows[k + 1..], c, u);
    OtherIndicatorsSkip(rows[..k], x, rows[k + 1..], c, u);
    assert forall j :: 0 <= j < |rows| ==> r[j].conversationId == rows[j].conversationId && r[j].userId == rows[j].userId;
    forall t | t in r && IsIndicatorFor(t, c, u) ensures t.timestamp == now {
      var j :| 0 <= j < |r| && r[j] == t;
    }
  }

  lemma DeleteIndicatorEffect(rows: seq<TypingIndicator>, k: nat, c: ConversationId, u: UserId)
    requires OneIndicatorPerPair(rows) && k < |rows| && IsIndicatorFor(rows[k], c, u)
    ensures var r := RemoveAt(rows, k);
      && OneIndicatorPerPair(r)
      && OtherIndicators(r, c, u) == OtherIndicators(rows, c, u)
      && forall t :: t in r ==> !IsIndicatorFor(t, c, u)
  {
    var r := RemoveAt(rows, k);
    assert rows == rows[..k] + [rows[k]] + rows[k + 1..];
    OtherIndicatorsSkip(rows[..k], rows[k], rows[k + 1..], c, u);
    forall i, j | 0 <= i < j < |r| ensures !IsIndicatorFor(r[j], r[i].conversationId, r[i].userId) {
      var i', j' := if i < k then i else i + 1, if j < k then j else j + 1;
      assert r[i] == rows[i'] && r[j] == rows[j'] && i' < j';
    }
    forall t | t in r ensures !IsIndicatorFor(t, c, u) {
      var j :| 0 <= j < |r| && r[j] == t;
      if j < k {
        assert r[j] == rows[j];
      } else {
        assert r[j] == rows[j + 1];
      }
    }
  }

  /** An indicator that is live at `now`. */
  predicate IsFresh(t: TypingIndicator, now: int) {
    now - t.timestamp <= LivenessWindowMs
  }

  /** A typing user as the queries report one: id and name. */
  datatype Typer = Typer(id: UserId, name: string)

  /** `getTypingUsers(c)` at `now`: for each live indicator of `c`, in order,
      its user, dropping indicators whose user row does not exist. */
  function TypingUsers(rows: seq<TypingIndicator>, users: seq<User>, c: ConversationId, now: int): (r: seq<Typer>)
    ensures |r| <= |rows|
    ensures forall x :: x in rows && x.conversationId == c && IsFresh(x, now) && x.userId < |users| ==>
      Typer(x.userId, users[x.userId].name) in r
    ensures forall t :: t in r ==>
      (t.id < |users| && t.name == users[t.id].name &&
       exists x :: x in rows && x.conversationId == c && x.userId == t.id && IsFresh(x, now))
  {
    if rows == [] then []
    else
      var x := rows[0];
      var rest := TypingUsers(rows[1..], users, c, now);
      assert forall y :: y in rows ==> y == x || y in rows[1..];
      (if x.conversationId == c && IsFresh(x, now) && x.userId < |users| then [Typer(x.userId, users[x.userId].name)] else []) + rest
  }

  /** After `setTyping(c, u, true)` at `t0`, `u` is reported as typing in `c`
      through `t0 + 2000` inclusive and, with no further call, not after, with
      no write needed. */
  lemma TypingExpires(rows: seq<TypingIndicator>, users: seq<User>, c: ConversationId, u: UserId, t0: int, now: int)
    requires OneIndicatorPerPair(rows)
    ensures u < |users| && now <= t0 + LivenessWindowMs ==>
      Typer(u, users[u].name) in TypingUsers(SetTyping(rows, c, u, true, t0), users, c, now)
    ensures now > t0 + LivenessWindowMs ==>
      forall t :: t in TypingUsers(SetTyping(rows, c, u, true, t0), users, c, now) ==> t.id != u
  {
    SetTypingEffect(rows, c, u, true, t0);
  }

  /** After `setTyping(c, u, false)`, `u` is never reported as typing in `c`. */
  lemma StoppedTypingIsHidden(rows: seq<TypingIndicator>, users: seq<User>, c: ConversationId, u: UserId, t0: int, now: int)
    requires OneIndicatorPerPair(rows)
    ensures forall t :: t in TypingUsers(SetTyping(rows, c, u, false, t0), users, c, now) ==> t.id != u
  {
    SetTypingEffect(rows, c, u, false, t0);
  }

  /** `getAllTypingIndicators(u)` at `now`: one key per conversation that
      includes `u`, nobody typing giving an empty list, each value the same
      live-indicator filter as `getTypingUsers` (`u` itself included). */
  method GetAllTypingIndicators(convs: seq<Conversation>, rows: seq<TypingIndicator>, users: seq<User>, u: UserId, now: int)
    returns (byConversation: map<ConversationId, seq<Typer>>)
    ensures byConversation.Keys == set id: nat | id < |convs| && u in convs[id].participants
    ensures forall id :: id in byConversation ==> byConversation[id] == TypingUsers(rows, users, id, now)
  {
    byConversation := map[];
    var i := 0;
    while i < |convs|
      invariant 0 <= i <= |convs|
      invariant byConversation.Keys == set id: nat | id < i && u in convs[id].participants
      invariant forall id :: id in byConversation ==> byConversation[id] == TypingUsers(rows, users, id, now)
    {
      if u in convs[i].participants {
        byConversation := byConversation[i := TypingUsers(rows, users, i, now)];
      }
      i := i + 1;
    }
  }
}
