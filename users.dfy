/** The user directory of `users.ts`: profile upsert keyed by `clerkId`, the
    online flag, and the listing. */
module Users {
  import opened Wrappers
  import opened Seqs
  import opened Schema

  /** The user with `clerkId`: the `by_clerk_id` index lookup, `.first()`. */
  function FindByClerkId(users: seq<User>, clerkId: string): (r: Option<nat>)
    ensures r.Some? ==> r.value < |users| && users[r.value].clerkId == clerkId
    ensures r.Some? ==> forall j :: 0 <= j < r.value ==> users[j].clerkId != clerkId
    ensures r.None? <==> forall j :: 0 <= j < |users| ==> users[j].clerkId != clerkId
  {
    FindFirst(users, (x: User) => x.clerkId == clerkId)
  }

  /** At most one user per `clerkId`. */
  predicate OneUserPerClerkId(users: seq<User>) {
    forall i, j :: 0 <= i < j < |users| ==> users[i].clerkId != users[j].clerkId
  }

  /** The users table after an upsert and the id `syncUser` returns. */
  datatype Synced = Synced(users: seq<User>, id: UserId)

  /** Every user whose `clerkId` differs from `clerkId` is marked offline; the
      loop at the end of `syncUser`. */
  function MarkOthersOffline(users: seq<User>, clerkId: string): (r: seq<User>)
    ensures |r| == |users|
    ensures forall j :: 0 <= j < |users| ==>
      r[j] == if users[j].clerkId != clerkId then users[j].(isOnline := false) else users[j]
  {
    seq(|users|, j requires 0 <= j < |users| =>
      if users[j].clerkId != clerkId then users[j].(isOnline := false) else users[j])
  }

  /** `syncUser(clerkId, name, imageUrl, email)` at `now`: patch the user with
      that `clerkId` or insert one, online and seen now, then mark every other
      user offline. */
  function SyncUser(users: seq<User>, clerkId: string, name: string, imageUrl: string, email: string, now: int): Synced {
    match FindByClerkId(users, clerkId)
    case Some(k) =>
      var patched := users[k := users[k].(name := name, imageUrl := imageUrl, email := email, isOnline := true, lastSeen := now)];
      Synced(MarkOthersOffline(patched, clerkId), k)
    case None =>
      var inserted := users + [User(clerkId, name, imageUrl, email, true, now)];
      Synced(MarkOthersOffline(inserted, clerkId), |users|)
  }

  /** What `syncUser` does: the returned id holds the given profile, online and
      seen at `now`, and is the existing user's id when `clerkId` is known (no
      row inserted) or the one new row otherwise; every other user is offline
      with all other fields kept; one user per `clerkId` is kept. */
  lemma SyncUserEffect(users: seq<User>, clerkId: string, name: string, imageUrl: string, email: string, now: int)
    requires OneUserPerClerkId(users)
    ensures var r := SyncUser(users, clerkId, name, imageUrl, email, now);
      && OneUserPerClerkId(r.users)
      && r.id < |r.users|
      && r.users[r.id] == User(clerkId, name, imageUrl, email, true, now)
      && (FindByClerkId(users, clerkId).Some? ==>
            r.id == FindByClerkId(users, clerkId).value && |r.users| == |users|)
      && (FindByClerkId(users, clerkId).None? ==> r.id == |users| && |r.users| == |users| + 1)
      && forall j :: 0 <= j < |users| && j != r.id ==> r.users[j] == users[j].(isOnline := false)
  {
    var r := SyncUser(users, clerkId, name, imageUrl, email, now);
    match FindByClerkId(users, clerkId)
    case Some(k) =>
      forall j | 0 <= j < |users| && j != k ensures users[j].clerkId != clerkId {
        if j < k {
          assert !((x: User) => x.clerkId == clerkId)(users[j]);
        } else {
          assert users[k].clerkId != users[j].clerkId;
        }
      }
    case None =>
      forall i, j | 0 <= i < j < |r.users| ensures r.users[i].clerkId != r.users[j].clerkId {
        if j == |users| {
          assert users[i].clerkId != clerkId;
        }
      }
  }

  /** The users table after `setOnline(clerkId, online)` at `now`: only the
      matching user's `isOnline` and `lastSeen` change; an unknown `clerkId`
      changes nothing. */
  function SetOnline(users: seq<User>, clerkId: string, online: bool, now: int): (r: seq<User>)
    ensures |r| == |users|
    ensures FindByClerkId(users, clerkId).None? ==> r == users
    ensures OneUserPerClerkId(users) ==> forall j :: 0 <= j < |users| ==>
      r[j] == if users[j].clerkId == clerkId then users[j].(isOnline := online, lastSeen := now) else users[j]
  {
    match FindByClerkId(users, clerkId)
    case Some(k) => users[k := users[k].(isOnline := online, lastSeen := now)]
    case None => users
  }

  /** `getUsers()`: every user with its id, in creation order. */
  function GetUsers(users: seq<User>): (r: seq<(UserId, User)>)
    ensures |r| == |users|
    ensures forall j :: 0 <= j < |users| ==> r[j] == (j, users[j])
  {
    seq(|users|, j requires 0 <= j < |users| => (j, users[j]))
  }
}
