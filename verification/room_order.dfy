/** Which message is a room's "last" one, and the order of the room list.

    Both list screens of the current revision take the last message with
    `maxByOrNull { it.sendingDate }` (the FIRST message of greatest
    timestamp string) and order rooms newest first with
    `sortedWith(nullsLast(compareByDescending { lastMessage?.sendingDate }))`:
    a stable sort, descending by the timestamp string, rooms without a
    last message at the end. The older revision took the last message as
    `sortedBy { it.sendingDate }.last()` (the LAST message of greatest
    timestamp string). Timestamps compare as strings, lexicographically.
 */
module RoomOrder {
  import opened Wrappers
  import opened LinkedMap
  import opened ChatModel
  import opened Text
  import opened StableSort

  /** The timestamps of the messages, in map order. */
  function Dates(ms: Messages): (ds: seq<string>)
    ensures |ds| == |ms|
    ensures forall i :: 0 <= i < |ms| ==> ds[i] == ms[i].1.sendingDate
  {
    if ms == [] then [] else [ms[0].1.sendingDate] + Dates(ms[1..])
  }

  /** The index `maxByOrNull` settles on: it replaces its candidate only by
      a strictly greater one, so it ends on the first greatest string. */
  function FirstMaxIndex(ds: seq<string>): (r: nat)
    requires ds != []
    ensures r < |ds|
    ensures forall i :: 0 <= i < |ds| ==> !LexLess(ds[r], ds[i])
    ensures forall i :: 0 <= i < r ==> LexLess(ds[i], ds[r])
  {
    if |ds| == 1 then
      LexLessIrreflexive(ds[0]);
      0
    else
      var n := |ds| - 1;
      assert |ds[..n]| == n > 0;
      var b := FirstMaxIndex(ds[..n]);
      assert forall i :: 0 <= i < n ==> ds[..n][i] == ds[i];
      if LexLess(ds[b], ds[n]) then
        assert forall i :: 0 <= i < n ==> LexLess(ds[i], ds[n]) by {
          forall i | 0 <= i < n ensures LexLess(ds[i], ds[n]) {
            if ds[i] != ds[b] {
              LexLessTotal(ds[i], ds[b]);
              LexLessTransitive(ds[i], ds[b], ds[n]);
            }
          }
        }
        assert forall i :: 0 <= i < |ds| ==> !LexLess(ds[n], ds[i]) by {
          forall i | 0 <= i < |ds| ensures !LexLess(ds[n], ds[i]) {
            LexLessAsymmetric(ds[i], ds[n]);
            LexLessIrreflexive(ds[n]);
          }
        }
        n
      else
        b
  }

  /** The index `sortedBy { }.last()` lands on: the last greatest string. */
  function LastMaxIndex(ds: seq<string>): (r: nat)
    requires ds != []
    ensures r < |ds|
    ensures forall i :: 0 <= i < |ds| ==> !LexLess(ds[r], ds[i])
    ensures forall i :: r < i < |ds| ==> LexLess(ds[i], ds[r])
  {
    if |ds| == 1 then
      LexLessIrreflexive(ds[0]);
      0
    else
      var n := |ds| - 1;
      assert |ds[..n]| == n > 0;
      var b := LastMaxIndex(ds[..n]);
      assert forall i :: 0 <= i < n ==> ds[..n][i] == ds[i];
      if !LexLess(ds[n], ds[b]) then
        assert forall i :: 0 <= i < n ==> !LexLess(ds[n], ds[i]) by {
          forall i | 0 <= i < n ensures !LexLess(ds[n], ds[i]) {
            if LexLess(ds[n], ds[i]) {
              if ds[n] == ds[b] {
              } else {
                LexLessTotal(ds[n], ds[b]);
                LexLessTransitive(ds[b], ds[n], ds[i]);
              }
            }
          }
        }
        LexLessIrreflexive(ds[n]);
        n
      else
        LexLessAsymmetric(ds[n], ds[b]);
        b
  }

  /** The two choices coincide when no two messages share a timestamp. */
  lemma FirstAndLastMaxAgree(ds: seq<string>)
    requires ds != []
    requires forall i, j :: 0 <= i < j < |ds| ==> ds[i] != ds[j]
    ensures FirstMaxIndex(ds) == LastMaxIndex(ds)
  {
    var a, b := FirstMaxIndex(ds), LastMaxIndex(ds);
    if a != b {
      LexLessTotal(ds[a], ds[b]);
    }
  }

  /** `getLastMessage` of the current revision: `maxByOrNull` over the
      message values, null for an empty map. */
  function LastMessage(ms: Messages): (r: Option<Message>)
    ensures r.None? <==> ms == []
    ensures r.Some? ==>
              (exists i :: 0 <= i < |ms| && ms[i].1 == r.value &&
                 (forall j :: 0 <= j < i ==> LexLess(ms[j].1.sendingDate, r.value.sendingDate)))
    ensures r.Some? ==> forall j :: 0 <= j < |ms| ==> !LexLess(r.value.sendingDate, ms[j].1.sendingDate)
  {
    if ms == [] then None
    else
      var i := FirstMaxIndex(Dates(ms));
      Some(ms[i].1)
  }

  /** `getLastMessage` of the older revision: `sortedBy { }.last()`, which
      throws on an empty map (the caller tests for emptiness first). */
  function LegacyLastMessage(ms: Messages): (r: Result<Message>)
    ensures r.Failure? <==> ms == []
    ensures r.Failure? ==> r.error == NoSuchElement
    ensures r.Success? ==>
              (exists i :: 0 <= i < |ms| && ms[i].1 == r.value &&
                 (forall j :: i < j < |ms| ==> LexLess(ms[j].1.sendingDate, r.value.sendingDate)))
    ensures r.Success? ==> forall j :: 0 <= j < |ms| ==> !LexLess(r.value.sendingDate, ms[j].1.sendingDate)
  {
    if ms == [] then Failure(NoSuchElement)
    else
      var i := LastMaxIndex(Dates(ms));
      Success(ms[i].1)
  }

  function MessageDate(m: Message): string {
    m.sendingDate
  }

  /** The older `getLastMessage` is the last element of the message values
      stably sorted ascending by timestamp. */
  lemma LegacyLastIsSortedLast(ms: Messages)
    requires ms != []
    ensures Sort(Values(ms), MessageDate, LexLess)[|ms| - 1] == LegacyLastMessage(ms).value
  {
    var vs, ds := Values(ms), Dates(ms);
    var j := LastMaxIndex(ds);
    assert forall i :: 0 <= i < |vs| ==> MessageDate(vs[i]) == ds[i];
    SortLast(vs, MessageDate, LexLess, j);
  }

  /** Two messages with the same timestamp: the revisions show different ones. */
  lemma RevisionsDisagreeOnTies()
    ensures var m1 := Message("a", "20240101120000", "first", false);
            var m2 := Message("b", "20240101120000", "second", false);
            var ms := [("k1", m1), ("k2", m2)];
            LastMessage(ms) == Some(m1) && LegacyLastMessage(ms) == Success(m2)
  {
    var m1 := Message("a", "20240101120000", "first", false);
    var m2 := Message("b", "20240101120000", "second", false);
    LexLessIrreflexive(m1.sendingDate);
  }

  // ---------------------------------------------------------------------
  // Room order
  // ---------------------------------------------------------------------

  /** The sort key of a room in the repository: `messages?.values?.maxByOrNull { }?.sendingDate`. */
  function LastDate(room: ChattingRoom): (r: Option<string>)
    ensures r.None? <==> room.messages.None? || room.messages.value == []
    ensures r.Some? ==> forall j :: 0 <= j < |room.messages.value| ==>
                          !LexLess(r.value, room.messages.value[j].1.sendingDate)
    ensures r.Some? ==> exists j :: 0 <= j < |room.messages.value| && room.messages.value[j].1.sendingDate == r.value
  {
    match room.messages
    case None => None
    case Some(ms) =>
      match LastMessage(ms)
      case None => None
      case Some(m) => Some(m.sendingDate)
  }

  function RoomRank(r: KeyedRoom): Option<string> {
    LastDate(r.1)
  }

  /** `a` is placed strictly before `b` under `compareByDescending`: a later
      timestamp first, and a missing one (null compares below everything)
      after every present one. */
  predicate RanksAhead(a: Option<string>, b: Option<string>) {
    match (a, b)
    case (Some(x), Some(y)) => LexLess(y, x)
    case (Some(_), None) => true
    case (None, _) => false
  }

  lemma RanksAheadIsStrictTotalOrder()
    ensures StrictTotalOrder(RanksAhead)
  {
    forall a ensures !RanksAhead(a, a) {
      if a.Some? { LexLessIrreflexive(a.value); }
    }
    forall a, b, c | RanksAhead(a, b) && RanksAhead(b, c) ensures RanksAhead(a, c) {
      if c.Some? { LexLessTransitive(c.value, b.value, a.value); }
    }
    forall a, b | a != b ensures RanksAhead(a, b) || RanksAhead(b, a) {
      if a.Some? && b.Some? { LexLessTotal(a.value, b.value); }
    }
  }

  /** `sortData` of the repository. */
  function SortRooms(rooms: seq<KeyedRoom>): (r: seq<KeyedRoom>)
    ensures |r| == |rooms|
  {
    Sort(rooms, RoomRank, RanksAhead)
  }

  /** The room list is a permutation of the rooms, newest last message
      first, rooms without messages at the end, and rooms of equal rank in
      their original order. */
  lemma SortRoomsOrder(rooms: seq<KeyedRoom>, k: Option<string>)
    ensures multiset(SortRooms(rooms)) == multiset(rooms)
    ensures forall i, j :: 0 <= i < j < |rooms| && RoomRank(SortRooms(rooms)[i]).None?
              ==> RoomRank(SortRooms(rooms)[j]).None?
    ensures forall i, j :: 0 <= i < j < |rooms| && RoomRank(SortRooms(rooms)[i]).Some?
              && RoomRank(SortRooms(rooms)[j]).Some?
              ==> !LexLess(RoomRank(SortRooms(rooms)[i]).value, RoomRank(SortRooms(rooms)[j]).value)
    ensures WithKey(SortRooms(rooms), RoomRank, k) == WithKey(rooms, RoomRank, k)
  {
    RanksAheadIsStrictTotalOrder();
    SortPermutation(rooms, RoomRank, RanksAhead);
    SortSorted(rooms, RoomRank, RanksAhead);
    SortStable(rooms, RoomRank, RanksAhead, k);
  }

  /** `sortData` of the list adapter. Its key reads `messages!!`, and the
      JVM sort compares every element once the list has two or more, so a
      room whose message map is null makes the sort throw. */
  function AdapterSortRooms(rooms: seq<KeyedRoom>): (r: Result<seq<KeyedRoom>>)
    ensures r.Failure? <==> |rooms| >= 2 && exists i :: 0 <= i < |rooms| && rooms[i].1.messages.None?
    ensures r.Failure? ==> r.error == NullDereference
    ensures r.Success? ==> r.value == SortRooms(rooms)
  {
    if |rooms| >= 2 && exists i :: 0 <= i < |rooms| && rooms[i].1.messages.None? then
      Failure(NullDereference)
    else
      Success(SortRooms(rooms))
  }
}
