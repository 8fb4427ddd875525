/** The conversation list: the repository's keyed room map driven by child
    events, the list adapter's copy of the same logic, the per-room tile
    (counterpart, last message, unread badge), the older adapter's one-shot
    load, and the list ViewModel's aggregation of lookup callbacks.
 */
module RoomList {
  import opened Wrappers
  import opened LinkedMap
  import opened ChatModel
  import opened StableSort
  import opened RoomOrder
  import opened Mirror
  import opened Text
  import Timestamp
  import ElapsedTime

  // ---------------------------------------------------------------------
  // Repository (ChattingListRepository)
  // ---------------------------------------------------------------------

  /** The map after an event, and the sorted list handed to the callback,
      if the handler reached it. */
  datatype Emission = Emission(rooms: Entries<ChattingRoom>, emitted: Option<seq<KeyedRoom>>)

  /** One child event applied by the repository: the mirror update, and
      the re-sorted list handed to the callback whenever the handler reached
      the map. */
  function RepositoryApply(rooms: Entries<ChattingRoom>, e: ChildEvent<ChattingRoom>): (r: Emission)
    ensures r.rooms == MirrorApply(rooms, e)
    ensures r.emitted.Some? <==> Handled(e)
    ensures r.emitted.Some? ==> r.emitted.value == SortRooms(r.rooms)
  {
    var m := MirrorApply(rooms, e);
    Emission(m, if Handled(e) then Some(SortRooms(m)) else None)
  }

  /** Every emitted list holds exactly the map's entries, each once: the
      same room under the same key, no key twice, nothing added or dropped;
      and it is ordered newest first with message-less rooms last. */
  lemma EmissionIsSortedPermutation(rooms: Entries<ChattingRoom>, e: ChildEvent<ChattingRoom>)
    requires UniqueKeys(rooms)
    ensures var r := RepositoryApply(rooms, e);
            UniqueKeys(r.rooms) &&
            (r.emitted.Some? ==>
               multiset(r.emitted.value) == multiset(r.rooms) &&
               UniqueKeys(r.emitted.value) &&
               (forall k :: k in Keys(r.emitted.value) <==> HasKey(r.rooms, k)) &&
               (forall i, j :: 0 <= i < j < |r.emitted.value| && RoomRank(r.emitted.value[i]).None?
                  ==> RoomRank(r.emitted.value[j]).None?))
  {
    var r := RepositoryApply(rooms, e);
    if r.emitted.Some? {
      var l := r.emitted.value;
      SortRoomsOrder(r.rooms, None);
      PermutationKeepsUniqueKeys(r.rooms, l);
      PermutationKeepsKeys(r.rooms, l);
    }
  }

  /** A permutation of a map lists exactly its keys. */
  lemma PermutationKeepsKeys(m: Entries<ChattingRoom>, l: seq<KeyedRoom>)
    requires multiset(l) == multiset(m)
    ensures forall k :: k in Keys(l) <==> HasKey(m, k)
  {
    forall k ensures k in Keys(l) <==> HasKey(m, k) {
      if k in Keys(l) {
        var i :| 0 <= i < |l| && Keys(l)[i] == k;
        assert l[i] in multiset(m);
      }
      if HasKey(m, k) {
        var i :| 0 <= i < |m| && m[i].0 == k;
        assert m[i] in multiset(l);
        var j :| 0 <= j < |l| && l[j] == m[i];
        assert Keys(l)[j] == k;
      }
    }
  }

  /** With distinct keys no entry occurs twice. */
  lemma {:induction false} UniqueMultiplicity<V>(m: Entries<V>, x: (string, V))
    requires UniqueKeys(m)
    ensures multiset(m)[x] <= 1
  {
    if m != [] {
      assert m == [m[0]] + m[1..];
      UniqueMultiplicity(m[1..], x);
      if x == m[0] {
        assert x !in m[1..] by {
          forall i | 0 <= i < |m[1..]| ensures m[1..][i] != x {
            assert m[1..][i].0 == m[i + 1].0 != m[0].0;
          }
        }
      }
    }
  }

  /** A permutation of a map with distinct keys has distinct keys. */
  lemma PermutationKeepsUniqueKeys<V>(m: Entries<V>, l: Entries<V>)
    requires UniqueKeys(m) && multiset(l) == multiset(m)
    ensures UniqueKeys(l)
  {
    forall i, j | 0 <= i < j < |l| ensures l[i].0 != l[j].0 {
      if l[i].0 == l[j].0 {
        assert l[i] in multiset(m) && l[j] in multiset(m);
        var p :| 0 <= p < |m| && m[p] == l[i];
        var q :| 0 <= q < |m| && m[q] == l[j];
        if p == q {
          assert l[i] == l[j];
          assert multiset(l)[l[i]] >= 2 by {
            assert l == l[..i] + [l[i]] + l[i + 1..j] + [l[j]] + l[j + 1..];
          }
          UniqueMultiplicity(m, l[i]);
        }
      }
    }
  }

  // ---------------------------------------------------------------------
  // List adapter (ChattingListRecyclerAdapter)
  // ---------------------------------------------------------------------

  /** The adapter's room map and the last list it submitted. The map is a
      `HashMap`: `dataList` holds its bindings, of which only `Get` and
      `HasKey` are meaningful, while the order the map enumerates them in,
      the order its sort starts from, is hash order. That order is not
      modelled: every operation that sorts takes the enumeration it sorts as
      a parameter, any order of the map's entries. */
  datatype ListAdapter = ListAdapter(dataList: Entries<ChattingRoom>, sorted: seq<KeyedRoom>)

  /** `listed` is an enumeration of `m`: its entries, each once, in some order. */
  predicate Enumerates(listed: seq<KeyedRoom>, m: Entries<ChattingRoom>) {
    multiset(listed) == multiset(m)
  }

  /** A room whose message map is null. */
  predicate HasNullMessages(rooms: seq<KeyedRoom>) {
    exists i :: 0 <= i < |rooms| && rooms[i].1.messages.None?
  }

  /** Any enumeration of a map has its size and its null-message rooms. */
  lemma EnumerationKeepsRooms(listed: seq<KeyedRoom>, m: Entries<ChattingRoom>)
    requires Enumerates(listed, m)
    ensures |listed| == |m|
    ensures HasNullMessages(listed) <==> HasNullMessages(m)
  {
    assert |multiset(listed)| == |listed| && |multiset(m)| == |m|;
    if HasNullMessages(listed) {
      var i :| 0 <= i < |listed| && listed[i].1.messages.None?;
      assert listed[i] in multiset(m);
      var j :| 0 <= j < |m| && m[j] == listed[i];
    }
    if HasNullMessages(m) {
      var i :| 0 <= i < |m| && m[i].1.messages.None?;
      assert m[i] in multiset(listed);
      var j :| 0 <= j < |listed| && listed[j] == m[i];
    }
  }

  /** One child event applied by the adapter: added and changed events
      dereference key and value with `!!`, put the room and re-sort the
      map's enumeration `listed`; removed, moved and cancelled events are
      ignored, so a room deleted remotely stays listed. */
  function AdapterApply(a: ListAdapter, e: ChildEvent<ChattingRoom>, listed: seq<KeyedRoom>): (r: Result<ListAdapter>)
    requires IsUpsert(e) ==> Enumerates(listed, Put(a.dataList, e.key.value, e.value.value))
    ensures (e.ChildAdded? || e.ChildChanged?) && (e.key.None? || e.value.None?) ==> r == Failure(NullDereference)
    ensures !(e.ChildAdded? || e.ChildChanged?) ==> r == Success(a)
    ensures IsUpsert(e) && r.Success? ==>
              Get(r.value.dataList, e.key.value) == Some(e.value.value) &&
              (forall k :: k != e.key.value ==> Get(r.value.dataList, k) == Get(a.dataList, k)) &&
              r.value.sorted == SortRooms(listed)
    ensures IsUpsert(e) ==>
              (r.Failure? <==>
                 |Put(a.dataList, e.key.value, e.value.value)| >= 2 &&
                 HasNullMessages(Put(a.dataList, e.key.value, e.value.value)))
  {
    match e
    case ChildAdded(k, v) => AdapterUpsert(a, k, v, listed)
    case ChildChanged(k, v) => AdapterUpsert(a, k, v, listed)
    case _ => Success(a)
  }

  function AdapterUpsert(a: ListAdapter, k: Option<string>, v: Option<ChattingRoom>, listed: seq<KeyedRoom>): (r: Result<ListAdapter>)
    requires k.Some? && v.Some? ==> Enumerates(listed, Put(a.dataList, k.value, v.value))
    ensures k.None? || v.None? ==> r == Failure(NullDereference)
    ensures k.Some? && v.Some? ==>
              (r.Failure? <==> |Put(a.dataList, k.value, v.value)| >= 2 &&
                               HasNullMessages(Put(a.dataList, k.value, v.value)))
    ensures r.Success? ==> k.Some? && v.Some? && r.value.dataList == Put(a.dataList, k.value, v.value)
                           && r.value.sorted == SortRooms(listed)
  {
    var key :- Deref(k);
    var room :- Deref(v);
    var m := Put(a.dataList, key, room);
    EnumerationKeepsRooms(listed, m);
    var l :- AdapterSortRooms(listed);
    Success(ListAdapter(m, l))
  }

  /** The long-click leave action's local part: drop the room and re-sort
      the enumeration `listed` of what remains, which throws as an upsert's
      sort does. */
  function AdapterLeave(a: ListAdapter, roomKey: string, listed: seq<KeyedRoom>): (r: Result<ListAdapter>)
    requires Enumerates(listed, Remove(a.dataList, roomKey))
    ensures r.Failure? <==> |Remove(a.dataList, roomKey)| >= 2 && HasNullMessages(Remove(a.dataList, roomKey))
    ensures r.Success? ==> r.value.dataList == Remove(a.dataList, roomKey) && r.value.sorted == SortRooms(listed)
    ensures r.Success? ==> !HasKey(r.value.dataList, roomKey) &&
                           (forall k :: k != roomKey ==> Get(r.value.dataList, k) == Get(a.dataList, k)) &&
                           roomKey !in Keys(r.value.sorted)
  {
    var m := Remove(a.dataList, roomKey);
    EnumerationKeepsRooms(listed, m);
    var l :- AdapterSortRooms(listed);
    SortRoomsOrder(listed, None);
    forall i | 0 <= i < |l| ensures l[i].0 != roomKey {
      assert l[i] in multiset(m);
      RemoveEntries(a.dataList, roomKey);
    }
    Success(ListAdapter(m, l))
  }

  /** Rooms newest first, rooms without a last message at the end. */
  predicate NewestFirst(l: seq<KeyedRoom>) {
    && (forall i, j :: 0 <= i < j < |l| && RoomRank(l[i]).None? ==> RoomRank(l[j]).None?)
    && (forall i, j :: 0 <= i < j < |l| && RoomRank(l[i]).Some? && RoomRank(l[j]).Some?
          ==> !LexLess(RoomRank(l[i]).value, RoomRank(l[j]).value))
  }

  /** Where the adapter does not crash it holds the repository's map and
      submits the rooms the repository emits, in the same newest-first
      order; rooms of equal rank may come out in another order, since the
      adapter's sort starts from hash order and the repository's from
      insertion order. When the two enumerations coincide, so do the lists. */
  lemma AdapterAgreesWithRepository(a: ListAdapter, e: ChildEvent<ChattingRoom>, listed: seq<KeyedRoom>)
    requires IsUpsert(e)
    requires Enumerates(listed, Put(a.dataList, e.key.value, e.value.value))
    requires AdapterApply(a, e, listed).Success?
    ensures RepositoryApply(a.dataList, e).rooms == AdapterApply(a, e, listed).value.dataList
    ensures RepositoryApply(a.dataList, e).emitted.Some?
    ensures multiset(AdapterApply(a, e, listed).value.sorted) == multiset(RepositoryApply(a.dataList, e).emitted.value)
    ensures NewestFirst(AdapterApply(a, e, listed).value.sorted) && NewestFirst(RepositoryApply(a.dataList, e).emitted.value)
    ensures listed == RepositoryApply(a.dataList, e).rooms ==>
              RepositoryApply(a.dataList, e).emitted == Some(AdapterApply(a, e, listed).value.sorted)
  {
    var m := Put(a.dataList, e.key.value, e.value.value);
    SortRoomsOrder(listed, None);
    SortRoomsOrder(m, None);
  }

  /** Two rooms whose last messages share a timestamp: the adapter shows
      them in the order its map happens to enumerate them. */
  lemma HashOrderDecidesTies(u: Users)
    ensures var m := Message("a", "20240101120000", "hi", false);
            var r1 := ChattingRoom(Some(u), Some([("m1", m)]));
            var r2 := ChattingRoom(Some(u), Some([("m2", m)]));
            SortRooms([("x", r1), ("y", r2)]) == [("x", r1), ("y", r2)] &&
            SortRooms([("y", r2), ("x", r1)]) == [("y", r2), ("x", r1)]
  {
    var m := Message("a", "20240101120000", "hi", false);
    var r1 := ChattingRoom(Some(u), Some([("m1", m)]));
    var r2 := ChattingRoom(Some(u), Some([("m2", m)]));
    assert LastMessage([("m1", m)]) == Some(m);
    assert LastMessage([("m2", m)]) == Some(m);
    TiedPairStays(("x", r1), ("y", r2));
    TiedPairStays(("y", r2), ("x", r1));
  }

  /** Two rooms of equal rank keep the order they are listed in. */
  lemma TiedPairStays(p: KeyedRoom, q: KeyedRoom)
    requires RoomRank(p) == RoomRank(q)
    ensures SortRooms([p, q]) == [p, q]
  {
    var k := RoomRank(q);
    if k.Some? { LexLessIrreflexive(k.value); }
    assert [p, q][..1] == [p];
    assert [p][..0] == [];
    assert Sort([p], RoomRank, RanksAhead) == Insert([], p, RoomRank, RanksAhead) == [p];
    assert !RanksAhead(RoomRank(q), RoomRank(p));
    assert Insert([p], q, RoomRank, RanksAhead) == [p] + Insert([], q, RoomRank, RanksAhead);
  }

  /** A remote deletion: the repository drops the room from what it emits,
      the adapter keeps showing it. */
  lemma RemovalDiverges(a: ListAdapter, k: string)
    requires UniqueKeys(a.dataList) && HasKey(a.dataList, k)
    ensures k !in Keys(RepositoryApply(a.dataList, ChildRemoved(Some(k))).emitted.value)
    ensures AdapterApply(a, ChildRemoved(Some(k)), a.sorted) == Success(a)
  {
    EmissionIsSortedPermutation(a.dataList, ChildRemoved(Some(k)));
  }

  // ---------------------------------------------------------------------
  // Room tile: counterpart, last message, unread badge
  // ---------------------------------------------------------------------

  /** Index of the first key different from `self`. */
  function FirstOther(ks: seq<string>, self: string): (r: Option<nat>)
    ensures r.None? <==> forall i :: 0 <= i < |ks| ==> ks[i] == self
    ensures r.Some? ==> r.value < |ks| && ks[r.value] != self &&
                        forall i :: 0 <= i < r.value ==> ks[i] == self
  {
    if ks == [] then None
    else if ks[0] != self then Some(0)
    else
      match FirstOther(ks[1..], self)
      case None => None
      case Some(i) => Some(i + 1)
  }

  /** `users!!.keys.first { it != uid }` (both adapters; the older one over
      boolean presence maps). */
  function CounterpartKey<V>(users: Option<Entries<V>>, self: string): (r: Result<string>)
    ensures users.None? <==> r == Failure(NullDereference)
    ensures users.Some? ==>
              (r == Failure(NoSuchElement) <==> forall i :: 0 <= i < |users.value| ==> users.value[i].0 == self)
    ensures r.Success? ==> r.value != self && HasKey(users.value, r.value)
    ensures r.Success? ==> exists i :: 0 <= i < |users.value| && users.value[i].0 == r.value &&
                             forall j :: 0 <= j < i ==> users.value[j].0 == self
  {
    var u :- Deref(users);
    var ks := Keys(u);
    match FirstOther(ks, self)
    case None => Failure(NoSuchElement)
    case Some(i) => Success(ks[i])
  }

  /** `users?.keys?.firstOrNull { it != uid } ?: ""` in the list ViewModel. */
  function ViewModelCounterpart(users: Option<Users>, self: string): (r: string)
    ensures users.None? ==> r == ""
    ensures users.Some? && (forall i :: 0 <= i < |users.value| ==> users.value[i].0 == self) ==> r == ""
  {
    match users
    case None => ""
    case Some(u) =>
      var ks := Keys(u);
      match FirstOther(ks, self)
      case None => ""
      case Some(i) => ks[i]
  }

  /** The ViewModel finds the same counterpart as the adapter and falls
      back to "" exactly where the adapter throws. */
  lemma CounterpartsAgree(users: Option<Users>, self: string)
    ensures CounterpartKey(users, self).Success? ==> ViewModelCounterpart(users, self) == CounterpartKey(users, self).value
    ensures CounterpartKey(users, self).Failure? ==> ViewModelCounterpart(users, self) == ""
  {
  }

  /** A message counted as unread for `self`. */
  predicate Unread(m: Message, self: string) {
    !m.confirmed && m.senderUid != self
  }

  /** `getUnreadCount`: the number of messages neither confirmed nor sent by `self`. */
  function UnreadCount(ms: Messages, self: string): (n: nat)
    ensures n <= |ms|
    ensures n == 0 <==> forall i :: 0 <= i < |ms| ==> !Unread(ms[i].1, self)
    ensures n == |ms| <==> forall i :: 0 <= i < |ms| ==> Unread(ms[i].1, self)
  {
    if ms == [] then 0
    else
      var rest := UnreadCount(ms[1..], self);
      assert forall i :: 0 < i < |ms| ==> ms[i] == ms[1..][i - 1];
      (if Unread(ms[0].1, self) then 1 else 0) + rest
  }

  /** A message appended by `self` never changes the count. */
  lemma {:induction false} UnreadCountAppend(ms: Messages, p: (string, Message), self: string)
    ensures UnreadCount(ms + [p], self) == UnreadCount(ms, self) + (if Unread(p.1, self) then 1 else 0)
  {
    if ms != [] {
      assert (ms + [p])[1..] == ms[1..] + [p];
      UnreadCountAppend(ms[1..], p, self);
    }
  }

  lemma OwnMessageNeverCounts(ms: Messages, k: string, m: Message, self: string)
    requires m.senderUid == self
    ensures UnreadCount(ms + [(k, m)], self) == UnreadCount(ms, self)
  {
    UnreadCountAppend(ms, (k, m), self);
  }

  /** Confirming one message lowers the count by one if it was unread, and
      leaves it unchanged otherwise. */
  lemma {:induction false} UnreadCountConfirm(ms: Messages, k: string, m: Message, self: string)
    requires Get(ms, k) == Some(m)
    ensures UnreadCount(Put(ms, k, m.(confirmed := true)), self)
            == UnreadCount(ms, self) - (if Unread(m, self) then 1 else 0)
  {
    if ms[0].0 != k {
      UnreadCountConfirm(ms[1..], k, m, self);
      assert Put(ms, k, m.(confirmed := true))[1..] == Put(ms[1..], k, m.(confirmed := true));
    } else {
      assert Put(ms, k, m.(confirmed := true))[1..] == ms[1..];
    }
  }

  /** What a bound list row shows once its callbacks have run. */
  datatype Summary = Summary(lastContent: string, lastDate: string, unread: nat)
  datatype Tile = Tile(opponent: string, summary: Option<Summary>)

  /** The unread badge is shown only with a positive count. */
  predicate BadgeVisible(t: Tile) {
    t.summary.Some? && t.summary.value.unread > 0
  }

  /** `onBindViewHolder` of the list adapter: counterpart first (throwing
      on null users or no other participant), then `messages!!`; a row of
      a room with messages shows its last message and unread badge, and
      reads the last message's timestamp through `ChattingRoomTimeData`
      for the elapsed-time label, which throws on a malformed timestamp. */
  function ListTile(room: ChattingRoom, self: string): (r: Result<Tile>)
    ensures r.Failure? <==> CounterpartKey(room.users, self).Failure? || room.messages.None? ||
                            (room.messages.value != [] && Timestamp.ParseTimeData(LastDate(room).value).Failure?)
    ensures r.Success? ==> r.value.opponent == CounterpartKey(room.users, self).value
    ensures r.Success? ==> (r.value.summary.Some? <==> room.messages.value != [])
    ensures r.Success? && r.value.summary.Some? ==>
              r.value.summary.value.lastContent == LastMessage(room.messages.value).value.content &&
              r.value.summary.value.lastDate == LastDate(room).value &&
              r.value.summary.value.unread == UnreadCount(room.messages.value, self)
    ensures r.Success? ==>
              (BadgeVisible(r.value) <==> exists i :: 0 <= i < |room.messages.value| && Unread(room.messages.value[i].1, self))
  {
    var opponent :- CounterpartKey(room.users, self);
    var ms :- Deref(room.messages);
    if ms == [] then Success(Tile(opponent, None))
    else
      var last := LastMessage(ms).value;
      var _ :- Timestamp.ParseTimeData(last.sendingDate);
      Success(Tile(opponent, Some(Summary(last.content, last.sendingDate, UnreadCount(ms, self)))))
  }

  /** `bind` of the older adapter: the same shape over boolean presence
      maps, with the older choice of last message; its elapsed-time label
      reads the month to minute fields of the last message's timestamp and
      of `now`, the current time formatted as `yyyyMMddHHmmss`, and throws
      where a field is missing or not a number. */
  function LegacyTile(room: LegacyRoom, self: string, now: string): (r: Result<Tile>)
    ensures r.Failure? <==> CounterpartKey(room.users, self).Failure? || room.messages.None? ||
                            (room.messages.value != [] &&
                             ElapsedTime.FieldLabelOf(LegacyLastMessage(room.messages.value).value.sendingDate, now).Failure?)
    ensures r.Success? ==> r.value.opponent == CounterpartKey(room.users, self).value
    ensures r.Success? ==> (r.value.summary.Some? <==> room.messages.value != [])
    ensures r.Success? && r.value.summary.Some? ==>
              r.value.summary.value.lastContent == LegacyLastMessage(room.messages.value).value.content &&
              r.value.summary.value.lastDate == LegacyLastMessage(room.messages.value).value.sendingDate &&
              r.value.summary.value.unread == UnreadCount(room.messages.value, self)
    ensures r.Success? ==>
              (BadgeVisible(r.value) <==> exists i :: 0 <= i < |room.messages.value| && Unread(room.messages.value[i].1, self))
  {
    var opponent :- CounterpartKey(room.users, self);
    var ms :- Deref(room.messages);
    if ms == [] then Success(Tile(opponent, None))
    else
      var last := LegacyLastMessage(ms).value;
      var _ :- ElapsedTime.FieldLabelOf(last.sendingDate, now);
      Success(Tile(opponent, Some(Summary(last.content, last.sendingDate, UnreadCount(ms, self)))))
  }

  /** The summary row of a tile is one message of the room, shown whole:
      its content with its own date, no message of the room being newer,
      and every message listed before it strictly older. */
  lemma TileShowsNewestMessage(room: ChattingRoom, self: string)
    requires ListTile(room, self).Success? && ListTile(room, self).value.summary.Some?
    ensures var sm := ListTile(room, self).value.summary.value;
            var ms := room.messages.value;
            (exists i :: 0 <= i < |ms| && ms[i].1.content == sm.lastContent && ms[i].1.sendingDate == sm.lastDate &&
               forall j :: 0 <= j < i ==> LexLess(ms[j].1.sendingDate, sm.lastDate)) &&
            (forall j :: 0 <= j < |ms| ==> !LexLess(sm.lastDate, ms[j].1.sendingDate))
  {
  }

  /** The older tile's summary is a message of the room, no message being
      newer, and every message listed after it strictly older. */
  lemma LegacyTileShowsNewestMessage(room: LegacyRoom, self: string, now: string)
    requires LegacyTile(room, self, now).Success? && LegacyTile(room, self, now).value.summary.Some?
    ensures var sm := LegacyTile(room, self, now).value.summary.value;
            var ms := room.messages.value;
            (exists i :: 0 <= i < |ms| && ms[i].1.content == sm.lastContent && ms[i].1.sendingDate == sm.lastDate &&
               forall j :: i < j < |ms| ==> LexLess(ms[j].1.sendingDate, sm.lastDate)) &&
            (forall j :: 0 <= j < |ms| ==> !LexLess(sm.lastDate, ms[j].1.sendingDate))
  {
  }

  /** A room whose last message carries a malformed timestamp crashes the
      row in both adapters. */
  lemma MalformedDateCrashesTile(u: Users, self: string, lu: Entries<bool>, now: string)
    requires exists i :: 0 <= i < |u| && u[i].0 != self
    requires exists i :: 0 <= i < |lu| && lu[i].0 != self
    ensures var m := Message("a", "x", "hi", false);
            ListTile(ChattingRoom(Some(u), Some([("k", m)])), self).Failure? &&
            LegacyTile(LegacyRoom(Some(lu), Some([("k", m)])), self, now).Failure?
  {
    var m := Message("a", "x", "hi", false);
    assert LastMessage([("k", m)]) == Some(m);
    assert LegacyLastMessage([("k", m)]) == Success(m);
  }

  // ---------------------------------------------------------------------
  // Older adapter's one-shot load (setChattingRooms)
  // ---------------------------------------------------------------------

  datatype LegacyListAdapter = LegacyListAdapter(rooms: seq<LegacyRoom>, keys: seq<string>)

  /** Appends each child's room (`getValue()!!`) and then its key (`key!!`).
      The room list is cleared first; the key list is not. */
  function LegacyLoad(a: LegacyListAdapter, children: seq<(Option<string>, Option<LegacyRoom>)>): (r: Result<LegacyListAdapter>)
    ensures r.Failure? <==> exists i :: 0 <= i < |children| && (children[i].0.None? || children[i].1.None?)
    ensures r.Success? ==> |r.value.rooms| == |children| && |r.value.keys| == |a.keys| + |children|
    ensures r.Success? ==> forall i :: 0 <= i < |children| ==>
              r.value.rooms[i] == children[i].1.value && r.value.keys[|a.keys| + i] == children[i].0.value
    ensures r.Success? ==> r.value.keys[..|a.keys|] == a.keys
  {
    AppendChildren(LegacyListAdapter([], a.keys), children)
  }

  function AppendChildren(a: LegacyListAdapter, children: seq<(Option<string>, Option<LegacyRoom>)>): (r: Result<LegacyListAdapter>)
    ensures r.Failure? <==> exists i :: 0 <= i < |children| && (children[i].0.None? || children[i].1.None?)
    ensures r.Success? ==> |r.value.rooms| == |a.rooms| + |children| && |r.value.keys| == |a.keys| + |children|
    ensures r.Success? ==> r.value.rooms[..|a.rooms|] == a.rooms && r.value.keys[..|a.keys|] == a.keys
    ensures r.Success? ==> forall i :: 0 <= i < |children| ==>
              r.value.rooms[|a.rooms| + i] == children[i].1.value && r.value.keys[|a.keys| + i] == children[i].0.value
    decreases |children|
  {
    if children == [] then Success(a)
    else
      var c := children[0];
      var room :- Deref(c.1);
      var key :- Deref(c.0);
      var next := LegacyListAdapter(a.rooms + [room], a.keys + [key]);
      var r := AppendChildren(next, children[1..]);
      assert forall i :: 0 < i < |children| ==> children[i] == children[1..][i - 1];
      if r.Success? then
        assert r.value.rooms[..|a.rooms|] == next.rooms[..|a.rooms|];
        assert r.value.keys[..|a.keys|] == next.keys[..|a.keys|];
        r
      else r
  }

  /** On a fresh adapter the load keeps rooms and keys in lockstep; on an
      adapter that already held keys the two lists no longer line up. */
  lemma LegacyLoadLockstep(a: LegacyListAdapter, children: seq<(Option<string>, Option<LegacyRoom>)>)
    requires LegacyLoad(a, children).Success?
    ensures a.keys == [] ==> forall i :: 0 <= i < |children| ==>
              LegacyLoad(a, children).value.keys[i] == children[i].0.value &&
              LegacyLoad(a, children).value.rooms[i] == children[i].1.value
    ensures a.keys != [] ==> |LegacyLoad(a, children).value.keys| != |LegacyLoad(a, children).value.rooms|
  {
    var r := LegacyLoad(a, children).value;
    if a.keys == [] {
      forall i | 0 <= i < |children|
        ensures r.keys[i] == children[i].0.value && r.rooms[i] == children[i].1.value
      {
        assert r.keys[|a.keys| + i] == children[i].0.value;
      }
    }
  }

  // ---------------------------------------------------------------------
  // List ViewModel aggregation (getChattingRoomsData)
  // ---------------------------------------------------------------------

  /** One row of the posted list: room key, counterpart profile, room. */
  datatype ListEntry = ListEntry(key: string, opponent: User, room: ChattingRoom)

  /** The counterpart uid looked up for each emitted room, in list order. */
  function Lookups(data: seq<KeyedRoom>, self: string): (r: seq<string>)
    ensures |r| == |data|
    ensures forall i :: 0 <= i < |data| ==> r[i] == ViewModelCounterpart(data[i].1.users, self)
  {
    if data == [] then [] else [ViewModelCounterpart(data[0].1.users, self)] + Lookups(data[1..], self)
  }

  /** A lookup callback: the position of the room whose lookup answered,
      and the profile it delivered. Callbacks arrive in any order; a lookup
      that matches no profile never calls back, one that matches several
      calls back once per match. */
  type Arrival = (nat, User)

  predicate ValidArrivals(data: seq<KeyedRoom>, arrivals: seq<Arrival>) {
    forall i :: 0 <= i < |arrivals| ==> arrivals[i].0 < |data|
  }

  /** The entries appended by the callbacks, in arrival order. */
  function Appended(data: seq<KeyedRoom>, arrivals: seq<Arrival>): (r: seq<ListEntry>)
    requires ValidArrivals(data, arrivals)
    ensures |r| == |arrivals|
    ensures forall i :: 0 <= i < |arrivals| ==>
              r[i] == ListEntry(data[arrivals[i].0].0, arrivals[i].1, data[arrivals[i].0].1)
  {
    if arrivals == [] then []
    else
      var a := arrivals[0];
      [ListEntry(data[a.0].0, a.1, data[a.0].1)] + Appended(data, arrivals[1..])
  }

  /** What the ViewModel posts for one emitted list: an empty list at once
      for no rooms; otherwise nothing until the callback count reaches the
      number of rooms, and then the entries of the first that many callbacks
      in the order they arrived. */
  function Posted(data: seq<KeyedRoom>, arrivals: seq<Arrival>): (r: Option<seq<ListEntry>>)
    requires ValidArrivals(data, arrivals)
    ensures r.Some? <==> data == [] || |arrivals| >= |data|
    ensures data == [] ==> r == Some([])
    ensures r.Some? ==> |r.value| == |data|
    ensures r.Some? ==> forall i :: 0 <= i < |data| ==>
              r.value[i].key == data[arrivals[i].0].0 && r.value[i].opponent == arrivals[i].1
  {
    if data == [] then Some([])
    else if |arrivals| < |data| then None
    else Some(Appended(data, arrivals)[..|data|])
  }

  /** The room of a posted row, with its key. */
  function RowRooms(rows: seq<ListEntry>): (r: seq<KeyedRoom>)
    ensures |r| == |rows|
    ensures forall i :: 0 <= i < |rows| ==> r[i] == (rows[i].key, rows[i].room)
  {
    if rows == [] then [] else [(rows[0].key, rows[0].room)] + RowRooms(rows[1..])
  }

  function Range(n: nat): (r: seq<nat>)
    ensures |r| == n
    ensures forall i :: 0 <= i < n ==> r[i] == i
  {
    if n == 0 then [] else Range(n - 1) + [n - 1]
  }

  /** The rooms at positions `ps`, in that order. */
  function Pick(data: seq<KeyedRoom>, ps: seq<nat>): (r: seq<KeyedRoom>)
    requires forall i :: 0 <= i < |ps| ==> ps[i] < |data|
    ensures |r| == |ps|
    ensures forall i :: 0 <= i < |ps| ==> r[i] == data[ps[i]]
  {
    if ps == [] then [] else [data[ps[0]]] + Pick(data, ps[1..])
  }

  lemma PickConcat(data: seq<KeyedRoom>, a: seq<nat>, b: seq<nat>)
    requires forall i :: 0 <= i < |a| ==> a[i] < |data|
    requires forall i :: 0 <= i < |b| ==> b[i] < |data|
    ensures forall i :: 0 <= i < |a + b| ==> (a + b)[i] < |data|
    ensures Pick(data, a + b) == Pick(data, a) + Pick(data, b)
  {
    assert forall i :: 0 <= i < |a + b| ==> (a + b)[i] < |data| by {
      forall i | 0 <= i < |a + b| ensures (a + b)[i] < |data| {
        if i < |a| { assert (a + b)[i] == a[i]; } else { assert (a + b)[i] == b[i - |a|]; }
      }
    }
  }

  /** Removing position `j` from `qs` removes one copy of `qs[j]`. */
  lemma DropOne(qs: seq<nat>, j: nat)
    requires j < |qs|
    ensures multiset(qs[..j] + qs[j + 1..]) == multiset(qs) - multiset{qs[j]}
  {
    assert qs == qs[..j] + [qs[j]] + qs[j + 1..];
  }

  /** Taking the first of `ps` and a copy of it at `j` from `qs` leaves equal multisets. */
  lemma TailsMatch(ps: seq<nat>, qs: seq<nat>, j: nat)
    requires multiset(ps) == multiset(qs) && ps != [] && j < |qs| && qs[j] == ps[0]
    ensures multiset(ps[1..]) == multiset(qs[..j] + qs[j + 1..])
  {
    assert ps == [ps[0]] + ps[1..];
    DropOne(qs, j);
  }

  /** Picking at `qs` picks the room at `qs[j]` and the rooms at the other positions. */
  lemma PickDropOne(data: seq<KeyedRoom>, qs: seq<nat>, j: nat)
    requires forall i :: 0 <= i < |qs| ==> qs[i] < |data|
    requires j < |qs|
    ensures var rest := qs[..j] + qs[j + 1..];
            (forall i :: 0 <= i < |rest| ==> rest[i] < |data|) &&
            multiset(Pick(data, qs)) == multiset(Pick(data, rest)) + multiset{data[qs[j]]}
  {
    var left, right := qs[..j], qs[j + 1..];
    assert qs == left + [qs[j]] + right;
    PickConcat(data, left, right);
    PickConcat(data, left, [qs[j]]);
    PickConcat(data, left + [qs[j]], right);
    assert Pick(data, [qs[j]]) == [data[qs[j]]];
  }

  /** Picking the same positions in another order picks the same rooms. */
  lemma {:induction false} PickPermutation(data: seq<KeyedRoom>, ps: seq<nat>, qs: seq<nat>)
    requires forall i :: 0 <= i < |ps| ==> ps[i] < |data|
    requires forall i :: 0 <= i < |qs| ==> qs[i] < |data|
    requires multiset(ps) == multiset(qs)
    ensures multiset(Pick(data, ps)) == multiset(Pick(data, qs))
    decreases |ps|
  {
    if ps == [] {
      assert |multiset(qs)| == |qs| == 0;
    } else {
      var x := ps[0];
      assert ps == [x] + ps[1..];
      assert x in multiset(qs);
      var j :| 0 <= j < |qs| && qs[j] == x;
      var rest := qs[..j] + qs[j + 1..];
      TailsMatch(ps, qs, j);
      PickDropOne(data, qs, j);
      PickPermutation(data, ps[1..], rest);
      PickHead(data, ps);
    }
  }

  lemma PickHead(data: seq<KeyedRoom>, ps: seq<nat>)
    requires forall i :: 0 <= i < |ps| ==> ps[i] < |data|
    requires ps != []
    ensures multiset(Pick(data, ps)) == multiset(Pick(data, ps[1..])) + multiset{data[ps[0]]}
  {
    var tail := Pick(data, ps[1..]);
    assert Pick(data, ps) == [data[ps[0]]] + tail;
    ConsMultiset(data[ps[0]], tail);
  }

  lemma ConsMultiset<T>(x: T, t: seq<T>)
    ensures multiset([x] + t) == multiset(t) + multiset{x}
  {
    assert multiset([x] + t) == multiset([x]) + multiset(t);
  }

  /** The rows appended for a list of arrivals are the rooms at the
      arrivals' positions. */
  lemma AppendedRooms(data: seq<KeyedRoom>, arrivals: seq<Arrival>)
    requires ValidArrivals(data, arrivals)
    ensures forall i :: 0 <= i < |arrivals| ==> Keys(arrivals)[i] < |data|
    ensures RowRooms(Appended(data, arrivals)) == Pick(data, Keys(arrivals))
  {
    var rows := Appended(data, arrivals);
    forall i | 0 <= i < |arrivals|
      ensures RowRooms(rows)[i] == Pick(data, Keys(arrivals))[i]
    {
      assert rows[i] == ListEntry(data[arrivals[i].0].0, arrivals[i].1, data[arrivals[i].0].1);
    }
  }

  /** When every room's lookup answers exactly once, the posted rows are
      the emitted rooms, each once, whatever order the answers came in. */
  lemma PostedPermutation(data: seq<KeyedRoom>, arrivals: seq<Arrival>)
    requires ValidArrivals(data, arrivals) && |arrivals| == |data|
    requires multiset(Keys(arrivals)) == multiset(Range(|data|))
    ensures Posted(data, arrivals).Some?
    ensures multiset(RowRooms(Posted(data, arrivals).value)) == multiset(data)
  {
    if data != [] {
      PostedIsAppended(data, arrivals);
      AppendedRooms(data, arrivals);
      PickRange(data);
      PickPermutation(data, Keys(arrivals), Range(|data|));
    }
  }

  lemma PostedIsAppended(data: seq<KeyedRoom>, arrivals: seq<Arrival>)
    requires ValidArrivals(data, arrivals) && |arrivals| == |data| > 0
    ensures Posted(data, arrivals) == Some(Appended(data, arrivals))
  {
    var rows := Appended(data, arrivals);
    assert rows[..|data|] == rows;
  }

  /** Picking every position in order picks every room in order. */
  lemma PickRange(data: seq<KeyedRoom>)
    ensures forall i :: 0 <= i < |data| ==> Range(|data|)[i] < |data|
    ensures Pick(data, Range(|data|)) == data
  {
    var all := Range(|data|);
    assert forall i :: 0 <= i < |data| ==> Pick(data, all)[i] == data[all[i]] == data[i];
  }

  /** The posted rows keep the emitted (sorted) order only when the
      callbacks answer in request order. */
  lemma PostedOrder(data: seq<KeyedRoom>, arrivals: seq<Arrival>)
    requires ValidArrivals(data, arrivals) && |arrivals| >= |data| > 0
    ensures (forall i :: 0 <= i < |data| ==> arrivals[i].0 == i) ==>
              forall i :: 0 <= i < |data| ==> Posted(data, arrivals).value[i].key == data[i].0
  {
  }

  /** Two rooms whose lookups answer in reverse order are posted in reverse
      of the emitted order. */
  lemma PostedFollowsArrival(r1: ChattingRoom, r2: ChattingRoom, u1: User, u2: User)
    ensures Posted([("a", r1), ("b", r2)], [(1, u2), (0, u1)])
            == Some([ListEntry("b", u2, r2), ListEntry("a", u1, r1)])
  {
    var data := [("a", r1), ("b", r2)];
    var arr: seq<Arrival> := [(1, u2), (0, u1)];
    var ap := Appended(data, arr);
    assert ap[0] == ListEntry("b", u2, r2);
    assert ap[1] == ListEntry("a", u1, r1);
    assert ap[..2] == ap == [ListEntry("b", u2, r2), ListEntry("a", u1, r1)];
  }
}
