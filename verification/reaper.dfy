/** Leaving a conversation and deleting abandoned ones.

    Each participant writes only its own presence record under
    `users/<uid>`. `chattingRoomAvailableCheck` reads a room's users map,
    counts the entries (`total`) and the entries that test as "left"
    (`check`), and deletes the whole room when the two counts are equal,
    which includes a room whose users map is empty. Three copies test
    `joinState == false`; the copy in the chat screen of the current
    revision tests `onlineState == false`.

    Store writes are modelled by their effect on the room's users map as
    the store holds it; a write's completion is a parameter.
 */
module Reaper {
  import opened LinkedMap
  import opened ChatModel

  /** Which flag the census reads. */
  datatype LeftTest = ByJoin | ByOnline

  predicate HasLeft(s: ChattingState, test: LeftTest) {
    match test
    case ByJoin => !s.joinState
    case ByOnline => !s.onlineState
  }

  /** Every participant tests as having left. */
  predicate AllLeft(users: Users, test: LeftTest) {
    forall i :: 0 <= i < |users| ==> HasLeft(users[i].1, test)
  }

  /** The number of entries that test as having left. */
  function LeftCount(users: Users, test: LeftTest): (n: nat)
    ensures n <= |users|
  {
    if users == [] then 0
    else LeftCount(users[..|users| - 1], test) + (if HasLeft(users[|users| - 1].1, test) then 1 else 0)
  }

  /** All entries have left exactly when the count of those who left is the
      number of entries. */
  lemma {:induction false} LeftCountAll(users: Users, test: LeftTest)
    ensures LeftCount(users, test) == |users| <==> AllLeft(users, test)
  {
    if users != [] {
      var init := users[..|users| - 1];
      LeftCountAll(init, test);
      assert forall i :: 0 <= i < |init| ==> init[i] == users[i];
    }
  }

  /** `chattingRoomAvailableCheck`: the census loop over the users snapshot
      and the deletion decision `total == check`. */
  method AvailableCheck(users: Users, test: LeftTest) returns (total: nat, check: nat, delete: bool)
    ensures total == |users| && check == LeftCount(users, test)
    ensures delete <==> AllLeft(users, test)
  {
    total, check := 0, 0;
    while total < |users|
      invariant total <= |users|
      invariant check == LeftCount(users[..total], test)
    {
      assert users[..total + 1][..total] == users[..total];
      if HasLeft(users[total].1, test) {
        check := check + 1;
      }
      total := total + 1;
    }
    assert users[..total] == users;
    LeftCountAll(users, test);
    delete := total == check;
  }

  /** The store's effect of writing `users/<uid>/joinState = false`: an
      existing record keeps its `onlineState`, a missing one is created with
      the default `onlineState` false. */
  function WriteLeft(users: Users, uid: string): (r: Users)
    ensures Get(r, uid).Some? && !Get(r, uid).value.joinState
    ensures Get(users, uid).Some? ==> Get(r, uid).value.onlineState == Get(users, uid).value.onlineState
    ensures forall k :: k != uid ==> Get(r, k) == Get(users, k)
    ensures UniqueKeys(users) ==> UniqueKeys(r)
  {
    var s := match Get(users, uid)
             case Some(s) => s.(joinState := false)
             case None => ChattingState(false, false);
    assert UniqueKeys(users) ==> UniqueKeys(Put(users, uid, s)) by {
      if UniqueKeys(users) { PutUnique(users, uid, s); }
    }
    Put(users, uid, s)
  }

  /** Every entry other than `uid` has left by `joinState`. */
  ghost predicate OthersLeft(users: Users, uid: string) {
    forall k :: k != uid && Get(users, k).Some? ==> !Get(users, k).value.joinState
  }

  /** After any write that marks `uid` as left, all have left exactly when
      everyone else had. */
  lemma PutLeftAllLeft(users: Users, uid: string, s: ChattingState)
    requires UniqueKeys(users) && !s.joinState
    ensures AllLeft(Put(users, uid, s), ByJoin) <==> OthersLeft(users, uid)
  {
    var r := Put(users, uid, s);
    PutUnique(users, uid, s);
    if AllLeft(r, ByJoin) {
      forall k | k != uid && Get(users, k).Some? ensures !Get(users, k).value.joinState {
        var i :| 0 <= i < |r| && r[i] == (k, Get(r, k).value);
        assert HasLeft(r[i].1, ByJoin);
      }
    }
    if OthersLeft(users, uid) {
      forall i | 0 <= i < |r| ensures HasLeft(r[i].1, ByJoin) {
        GetAt(r, i);
      }
    }
  }

  /** After the leave write, all have left exactly when everyone else had. */
  lemma WriteLeftAllLeft(users: Users, uid: string)
    requires UniqueKeys(users)
    ensures AllLeft(WriteLeft(users, uid), ByJoin) <==> OthersLeft(users, uid)
  {
    var s := match Get(users, uid)
             case Some(s) => s.(joinState := false)
             case None => ChattingState(false, false);
    PutLeftAllLeft(users, uid, s);
  }

  /** The outcome of leaving a room, as the store would hold it. */
  datatype Outcome = Outcome(users: Users, deleted: bool)

  /** `quitChattingRoom` of the repository: write the caller's `joinState =
      false`; only when that write succeeds, run the `joinState` census on
      the updated users map. */
  function RepositoryQuit(users: Users, uid: string, writeSucceeded: bool): (r: Outcome)
    requires UniqueKeys(users)
    ensures !writeSucceeded ==> r == Outcome(users, false)
    ensures writeSucceeded ==> r.users == WriteLeft(users, uid)
    ensures r.deleted <==> writeSucceeded && OthersLeft(users, uid)
  {
    if writeSucceeded then
      var after := WriteLeft(users, uid);
      WriteLeftAllLeft(users, uid);
      Outcome(after, AllLeft(after, ByJoin))
    else
      Outcome(users, false)
  }

  /** The leave action of the list adapter: it writes `joinState = false`
      without waiting for completion and runs the `joinState` census right
      away; the store's local cache applies the write first, so the census
      reads the updated map. */
  function AdapterQuit(users: Users, uid: string): (r: Outcome)
    requires UniqueKeys(users)
    ensures r.users == WriteLeft(users, uid)
    ensures r.deleted <==> OthersLeft(users, uid)
  {
    WriteLeftAllLeft(users, uid);
    Outcome(WriteLeft(users, uid), AllLeft(WriteLeft(users, uid), ByJoin))
  }

  /** The last participant to leave deletes the room; a participant leaving
      while the other is still joined does not. */
  lemma LastToLeaveDeletes(users: Users, me: string, other: string)
    requires UniqueKeys(users) && me != other
    requires Keys(users) == [me, other] || Keys(users) == [other, me]
    ensures AdapterQuit(users, me).deleted <==> Get(users, other).Some? && !Get(users, other).value.joinState
  {
    assert HasKey(users, other);
    forall k | k != me && k != other ensures Get(users, k).None? {
      assert !HasKey(users, k);
    }
  }
}
