/** Finding or creating the conversation between the current user and an
    opponent.

    Every copy scans rooms from a store query and takes the first room
    whose users map, rendered as text with `value.toString()`, contains
    both uids as substrings; it is a text test on a rendering, not a test
    of membership. The rendering is the JVM map form `{k=v, k=v}` with a
    presence record shown as `{joinState=…, onlineState=…}` and a missing
    map shown as `null`. When no room matches, a new room is built with the
    caller joined and online and the opponent joined and offline, and no
    messages.

    The store query's order and filter are store behaviour: the rooms
    arrive as a parameter in query order, and where the query filters with
    `equalTo(true)` the model applies that filter to them.
 */
module Resolver {
  import opened Wrappers
  import opened Text
  import opened LinkedMap
  import opened ChatModel

  // ---------------------------------------------------------------------
  // Rendering
  // ---------------------------------------------------------------------

  function BoolText(b: bool): string {
    if b then "true" else "false"
  }

  /** `toString()` of one user's presence as the raw snapshot value holds
      it, a `HashMap` whose enumeration order is unspecified; the order
      fixed here is the data class's field order. */
  function StateText(s: ChattingState): string {
    "{joinState=" + BoolText(s.joinState) + ", onlineState=" + BoolText(s.onlineState) + "}"
  }

  function EntryText<V>(e: (string, V), f: V -> string): string {
    e.0 + "=" + f(e.1)
  }

  function EntriesText<V>(es: Entries<V>, f: V -> string): string
    decreases |es|
  {
    if es == [] then ""
    else if |es| == 1 then EntryText(es[0], f)
    else EntryText(es[0], f) + ", " + EntriesText(es[1..], f)
  }

  /** `toString()` of a nullable map value. */
  function MapText<V>(m: Option<Entries<V>>, f: V -> string): string {
    match m
    case None => "null"
    case Some(es) => "{" + EntriesText(es, f) + "}"
  }

  /** `toString()` of the raw `users` value, with its entries in stored
      order. */
  function UsersText(users: Option<Users>): string {
    MapText(users, StateText)
  }

  /** A nullable uid in a string template: null renders as `null`. */
  function UidText(uid: Option<string>): string {
    match uid
    case Some(u) => u
    case None => "null"
  }

  lemma {:induction false} KeyInEntriesText<V>(es: Entries<V>, f: V -> string, k: string)
    requires HasKey(es, k)
    ensures Contains(EntriesText(es, f), k)
    decreases |es|
  {
    HasKeyTail(es, k);
    var head := EntryText(es[0], f);
    if es[0].0 == k {
      assert OccursAt(k, k, 0);
      ContainsLeft(k, "=" + f(es[0].1), k);
      assert k + ("=" + f(es[0].1)) == head;
      if |es| > 1 {
        ContainsLeft(head, ", " + EntriesText(es[1..], f), k);
        assert head + (", " + EntriesText(es[1..], f)) == EntriesText(es, f);
      }
    } else {
      KeyInEntriesText(es[1..], f, k);
      ContainsRight(head + ", ", EntriesText(es[1..], f), k);
    }
  }

  /** Every key of a map occurs in its rendering. */
  lemma KeyInMapText<V>(es: Entries<V>, f: V -> string, k: string)
    requires HasKey(es, k)
    ensures Contains(MapText(Some(es), f), k)
  {
    KeyInEntriesText(es, f, k);
    ContainsInContext("{", EntriesText(es, f), "}", k);
  }

  // ---------------------------------------------------------------------
  // The scan
  // ---------------------------------------------------------------------

  predicate MentionsBoth(text: string, a: string, b: string) {
    Contains(text, a) && Contains(text, b)
  }

  /** The scan with `break`: the index of the first text mentioning both. */
  function FirstMention(texts: seq<string>, a: string, b: string): (r: Option<nat>)
    ensures r.Some? ==> r.value < |texts| && MentionsBoth(texts[r.value], a, b)
    ensures r.Some? ==> forall j :: 0 <= j < r.value ==> !MentionsBoth(texts[j], a, b)
    ensures r.None? <==> forall j :: 0 <= j < |texts| ==> !MentionsBoth(texts[j], a, b)
    decreases |texts|
  {
    if texts == [] then None
    else if MentionsBoth(texts[0], a, b) then Some(0)
    else
      match FirstMention(texts[1..], a, b)
      case None => None
      case Some(i) => Some(i + 1)
  }

  /** The users texts of a snapshot's rooms, in snapshot order. */
  function RoomTexts(rooms: seq<KeyedRoom>): (ts: seq<string>)
    ensures |ts| == |rooms|
    ensures forall i :: 0 <= i < |rooms| ==> ts[i] == UsersText(rooms[i].1.users)
  {
    if rooms == [] then [] else [UsersText(rooms[0].1.users)] + RoomTexts(rooms[1..])
  }

  /** A room that really holds both uids is never missed: the scan stops
      at it or at an earlier room. */
  lemma ParticipantsAreFound(rooms: seq<KeyedRoom>, a: string, b: string, i: nat)
    requires i < |rooms| && rooms[i].1.users.Some?
    requires HasKey(rooms[i].1.users.value, a) && HasKey(rooms[i].1.users.value, b)
    ensures FirstMention(RoomTexts(rooms), a, b).Some?
    ensures FirstMention(RoomTexts(rooms), a, b).value <= i
  {
    KeyInMapText(rooms[i].1.users.value, StateText, a);
    KeyInMapText(rooms[i].1.users.value, StateText, b);
  }

  /** The text test is not membership: a uid that is part of another uid
      matches a room it is not in. */
  lemma MentionIsNotMembership()
    ensures var users := [("abc", ChattingState(true, true)), ("xyz", ChattingState(true, false))];
            var rooms := [("r1", ChattingRoom(Some(users), None))];
            FirstMention(RoomTexts(rooms), "ab", "xyz") == Some(0) && !HasKey(users, "ab")
  {
    var users := [("abc", ChattingState(true, true)), ("xyz", ChattingState(true, false))];
    var text := UsersText(Some(users));
    assert OccursAt(text, "ab", 1);
    KeyInMapText(users, StateText, "xyz");
    assert !HasKey(users, "ab") by {
      assert users[0].0 != "ab" && users[1].0 != "ab";
    }
  }

  // ---------------------------------------------------------------------
  // The room to create
  // ---------------------------------------------------------------------

  /** `ChattingRoom(mapOf(self to (true, true), opponent to (true, false)), null)`;
      with equal uids the later pair wins. */
  function Candidate(self: string, opponent: string): (r: ChattingRoom)
    ensures r.messages.None? && r.users.Some?
    ensures Get(r.users.value, opponent) == Some(ChattingState(true, false))
    ensures self != opponent ==> Get(r.users.value, self) == Some(ChattingState(true, true))
    ensures forall k :: k != self && k != opponent ==> !HasKey(r.users.value, k)
  {
    var one := Put([], self, ChattingState(true, true));
    var users := Put(one, opponent, ChattingState(true, false));
    forall k | k != self && k != opponent ensures !HasKey(users, k) {
      assert Get(one, k) == Get([], k) == None;
      assert Get(users, k) == Get(one, k);
    }
    ChattingRoom(Some(users), None)
  }

  /** With distinct uids the new room has exactly the two participants, the
      caller first. */
  lemma CandidateShape(self: string, opponent: string)
    requires self != opponent
    ensures Keys(Candidate(self, opponent).users.value) == [self, opponent]
    ensures UniqueKeys(Candidate(self, opponent).users.value)
  {
    var one := Put([], self, ChattingState(true, true));
    assert one == [(self, ChattingState(true, true))];
    assert !HasKey(one, opponent);
    PutKeys(one, opponent, ChattingState(true, false));
  }

  // ---------------------------------------------------------------------
  // NewChatRepository.createChattingRoom
  // ---------------------------------------------------------------------

  datatype Resolution = Reuse(roomKey: string) | Create(room: ChattingRoom)

  /** The decision: the first room mentioning both uids is reused, otherwise
      the candidate room is created. The caller's uid is dereferenced to
      build the query; the opponent's uid is dereferenced in the scan or,
      failing that, in building the candidate, so a null one always throws. */
  function Resolve(rooms: seq<KeyedRoom>, self: Option<string>, opponent: Option<string>): (r: Result<Resolution>)
    ensures r.Failure? <==> self.None? || opponent.None?
    ensures r.Failure? ==> r.error == NullDereference
    ensures r.Success? && r.value.Reuse? ==>
              (exists i :: 0 <= i < |rooms| && rooms[i].0 == r.value.roomKey &&
                 MentionsBoth(UsersText(rooms[i].1.users), self.value, opponent.value) &&
                 (forall j :: 0 <= j < i ==> !MentionsBoth(UsersText(rooms[j].1.users), self.value, opponent.value)))
    ensures r.Success? ==>
              (r.value.Create? <==>
                 forall j :: 0 <= j < |rooms| ==> !MentionsBoth(UsersText(rooms[j].1.users), self.value, opponent.value))
    ensures r.Success? && r.value.Create? ==> r.value.room == Candidate(self.value, opponent.value)
  {
    var s :- Deref(self);
    var o :- Deref(opponent);
    match FirstMention(RoomTexts(rooms), s, o)
    case Some(i) => Success(Reuse(rooms[i].0))
    case None => Success(Create(Candidate(s, o)))
  }

  /** The result pair handed to the callback and the room pushed, if any:
      `(key, true)` for a reused room with nothing written, otherwise the
      candidate is pushed and the pair is `(new key, false)` on success and
      `("", false)` on failure. */
  function CreateOutcome(res: Resolution, pushedKey: string, writeSucceeded: bool): (r: ((string, bool), Option<ChattingRoom>))
    ensures r.0.1 <==> res.Reuse?
    ensures r.1.None? <==> res.Reuse?
    ensures res.Reuse? ==> r.0.0 == res.roomKey
    ensures res.Create? ==> r.1 == Some(res.room) && r.0.0 == (if writeSucceeded then pushedKey else "")
  {
    match res
    case Reuse(k) => ((k, true), None)
    case Create(room) => ((if writeSucceeded then pushedKey else "", false), Some(room))
  }

  // ---------------------------------------------------------------------
  // UserSearchRecyclerAdapter.createChattingRoom (current revision)
  // ---------------------------------------------------------------------

  /** What the search adapter does after the scan: offer the existing room
      in a dialog, or push the candidate and, once the write succeeds,
      open the chat screen with the blank key. */
  datatype SearchOutcome =
    | OfferExisting(roomKey: string)
    | Pushed(room: ChattingRoom, navigateWith: Option<string>)

  /** The candidate is built first, dereferencing both uids; the scan and
      its outcome follow. */
  function SearchCreate(rooms: seq<KeyedRoom>, self: Option<string>, opponent: Option<string>, writeSucceeded: bool): (r: Result<SearchOutcome>)
    ensures r.Failure? <==> self.None? || opponent.None?
    ensures r.Success? && r.value.Pushed? ==> r.value.navigateWith == (if writeSucceeded then Some("") else None)
  {
    var s :- Deref(self);
    var o :- Deref(opponent);
    var room := Candidate(s, o);
    match FirstMention(RoomTexts(rooms), s, o)
    case Some(i) => Success(OfferExisting(rooms[i].0))
    case None => Success(Pushed(room, if writeSucceeded then Some("") else None))
  }

  /** The search adapter and the repository make the same decision. */
  lemma SearchAgreesWithRepository(rooms: seq<KeyedRoom>, self: Option<string>, opponent: Option<string>, ok: bool)
    ensures SearchCreate(rooms, self, opponent, ok).Success? <==> Resolve(rooms, self, opponent).Success?
    ensures SearchCreate(rooms, self, opponent, ok).Success? ==>
              match Resolve(rooms, self, opponent).value
              case Reuse(k) => SearchCreate(rooms, self, opponent, ok).value == OfferExisting(k)
              case Create(room) => SearchCreate(rooms, self, opponent, ok).value.Pushed? &&
                                   SearchCreate(rooms, self, opponent, ok).value.room == room
  {
  }

  // ---------------------------------------------------------------------
  // The chat screens' key resolution
  // ---------------------------------------------------------------------

  /** `equalTo(true)` on `users/<uid>/joinState`. */
  predicate JoinedBy(room: ChattingRoom, uid: string) {
    room.users.Some? && Get(room.users.value, uid).Some? && Get(room.users.value, uid).value.joinState
  }

  function JoinedRooms(rooms: seq<KeyedRoom>, uid: string): (r: seq<KeyedRoom>)
    ensures |r| <= |rooms|
    ensures forall i :: 0 <= i < |r| ==> JoinedBy(r[i].1, uid) && r[i] in rooms
    ensures forall i :: 0 <= i < |rooms| && JoinedBy(rooms[i].1, uid) ==> rooms[i] in r
  {
    if rooms == [] then []
    else (if JoinedBy(rooms[0].1, uid) then [rooms[0]] else []) + JoinedRooms(rooms[1..], uid)
  }

  /** A room the current chat screen takes: joined by the opponent, with a
      users text that contains both uids. */
  predicate ScreenMatch(room: ChattingRoom, self: string, o: string) {
    JoinedBy(room, o) && MentionsBoth(UsersText(room.users), self, o)
  }

  /** The chat screen's query and scan: the rooms the opponent has joined,
      scanned for the first users text that contains both uids. */
  function QueryScan(rooms: seq<KeyedRoom>, self: string, o: string): Option<string> {
    var joined := JoinedRooms(rooms, o);
    match FirstMention(RoomTexts(joined), self, o)
    case Some(i) => Some(joined[i].0)
    case None => None
  }

  /** The same search as one pass over all the rooms. */
  function FirstScreenMatch(rooms: seq<KeyedRoom>, self: string, o: string): (r: Option<string>)
    ensures r.Some? ==> exists i :: 0 <= i < |rooms| && rooms[i].0 == r.value &&
                          ScreenMatch(rooms[i].1, self, o) &&
                          forall j :: 0 <= j < i ==> !ScreenMatch(rooms[j].1, self, o)
    ensures r.None? <==> forall i :: 0 <= i < |rooms| ==> !ScreenMatch(rooms[i].1, self, o)
    decreases |rooms|
  {
    if rooms == [] then None
    else if ScreenMatch(rooms[0].1, self, o) then Some(rooms[0].0)
    else
      var rest := FirstScreenMatch(rooms[1..], self, o);
      FirstMatchSkipsHead(rooms, self, o, rest);
      rest
  }

  /** Skipping a first room that does not match keeps a first match of the
      rest the first match of the whole list. */
  lemma FirstMatchSkipsHead(rooms: seq<KeyedRoom>, self: string, o: string, rest: Option<string>)
    requires rooms != [] && !ScreenMatch(rooms[0].1, self, o)
    requires rest.Some? ==> exists i :: 0 <= i < |rooms[1..]| && rooms[1..][i].0 == rest.value &&
                              ScreenMatch(rooms[1..][i].1, self, o) &&
                              forall j :: 0 <= j < i ==> !ScreenMatch(rooms[1..][j].1, self, o)
    requires rest.None? <==> forall i :: 0 <= i < |rooms[1..]| ==> !ScreenMatch(rooms[1..][i].1, self, o)
    ensures rest.Some? ==> exists i :: 0 <= i < |rooms| && rooms[i].0 == rest.value &&
                             ScreenMatch(rooms[i].1, self, o) &&
                             forall j :: 0 <= j < i ==> !ScreenMatch(rooms[j].1, self, o)
    ensures rest.None? <==> forall i :: 0 <= i < |rooms| ==> !ScreenMatch(rooms[i].1, self, o)
  {
    if rest.Some? {
      var i :| 0 <= i < |rooms[1..]| && rooms[1..][i].0 == rest.value &&
               ScreenMatch(rooms[1..][i].1, self, o) &&
               forall j :: 0 <= j < i ==> !ScreenMatch(rooms[1..][j].1, self, o);
      assert rooms[i + 1] == rooms[1..][i];
      assert forall j :: 0 < j < i + 1 ==> rooms[j] == rooms[1..][j - 1];
    } else {
      assert forall i :: 0 < i < |rooms| ==> rooms[i] == rooms[1..][i - 1];
    }
  }

  /** One room of the query and scan: the first room is taken if it
      matches, otherwise the search goes on with the rest. */
  lemma QueryScanStep(rooms: seq<KeyedRoom>, self: string, o: string)
    requires rooms != []
    ensures QueryScan(rooms, self, o) ==
              if ScreenMatch(rooms[0].1, self, o) then Some(rooms[0].0) else QueryScan(rooms[1..], self, o)
  {
    var rest := JoinedRooms(rooms[1..], o);
    var joined := JoinedRooms(rooms, o);
    if JoinedBy(rooms[0].1, o) {
      assert joined == [rooms[0]] + rest;
      var texts := RoomTexts(joined);
      assert texts[1..] == RoomTexts(rest);
      assert forall i :: 0 <= i < |rest| ==> joined[i + 1] == rest[i];
    } else {
      assert joined == rest;
    }
  }

  /** The query and scan finds the first matching room of the whole list. */
  lemma {:induction false} QueryScanIsFirstMatch(rooms: seq<KeyedRoom>, self: string, o: string)
    ensures QueryScan(rooms, self, o) == FirstScreenMatch(rooms, self, o)
    decreases |rooms|
  {
    if rooms != [] {
      QueryScanStep(rooms, self, o);
      QueryScanIsFirstMatch(rooms[1..], self, o);
    }
  }

  /** `setChatRoomKey` of the current chat screen: among the rooms the
      opponent has joined, the first whose users text contains both uids
      supplies the key; a null opponent uid is the text `null` both in the
      query path and in the test. With no match the key stays blank. */
  function ScreenResolve(rooms: seq<KeyedRoom>, self: string, opponent: Option<string>): (r: Option<string>)
    ensures r.Some? ==> exists i :: 0 <= i < |rooms| && rooms[i].0 == r.value &&
                          ScreenMatch(rooms[i].1, self, UidText(opponent)) &&
                          forall j :: 0 <= j < i ==> !ScreenMatch(rooms[j].1, self, UidText(opponent))
    ensures r.None? <==> forall i :: 0 <= i < |rooms| ==> !ScreenMatch(rooms[i].1, self, UidText(opponent))
  {
    QueryScanIsFirstMatch(rooms, self, UidText(opponent));
    QueryScan(rooms, self, UidText(opponent))
  }

  /** `equalTo(true)` on `users/<uid>` of a room of the older revision. */
  predicate LegacyJoinedBy(room: LegacyRoom, uid: string) {
    room.users.Some? && Get(room.users.value, uid) == Some(true)
  }

  function LegacyUsersText(users: Option<Entries<bool>>): string {
    MapText(users, BoolText)
  }

  /** A room the older chat screen takes: the opponent's flag is true and
      the users text contains both uids. */
  predicate LegacyScreenMatch(room: LegacyRoom, self: string, o: string) {
    LegacyJoinedBy(room, o) && MentionsBoth(LegacyUsersText(room.users), self, o)
  }

  /** `setChatRoomKey` of the older chat screen: the first room, among
      those where the opponent's flag is true, whose users text contains
      both uids. */
  function LegacyScreenResolve(rooms: seq<(string, LegacyRoom)>, self: string, opponent: Option<string>): (r: Option<string>)
    ensures r.Some? ==> exists i :: 0 <= i < |rooms| && rooms[i].0 == r.value &&
                          LegacyScreenMatch(rooms[i].1, self, UidText(opponent)) &&
                          forall j :: 0 <= j < i ==> !LegacyScreenMatch(rooms[j].1, self, UidText(opponent))
    ensures r.None? <==> forall i :: 0 <= i < |rooms| ==> !LegacyScreenMatch(rooms[i].1, self, UidText(opponent))
    decreases |rooms|
  {
    var o := UidText(opponent);
    if rooms == [] then None
    else if LegacyScreenMatch(rooms[0].1, self, o) then
      Some(rooms[0].0)
    else
      var rest := LegacyScreenResolve(rooms[1..], self, opponent);
      LegacyFirstMatchSkipsHead(rooms, self, o, rest);
      rest
  }

  /** `FirstMatchSkipsHead` for the older revision's rooms. */
  lemma LegacyFirstMatchSkipsHead(rooms: seq<(string, LegacyRoom)>, self: string, o: string, rest: Option<string>)
    requires rooms != [] && !LegacyScreenMatch(rooms[0].1, self, o)
    requires rest.Some? ==> exists i :: 0 <= i < |rooms[1..]| && rooms[1..][i].0 == rest.value &&
                              LegacyScreenMatch(rooms[1..][i].1, self, o) &&
                              forall j :: 0 <= j < i ==> !LegacyScreenMatch(rooms[1..][j].1, self, o)
    requires rest.None? <==> forall i :: 0 <= i < |rooms[1..]| ==> !LegacyScreenMatch(rooms[1..][i].1, self, o)
    ensures rest.Some? ==> exists i :: 0 <= i < |rooms| && rooms[i].0 == rest.value &&
                             LegacyScreenMatch(rooms[i].1, self, o) &&
                             forall j :: 0 <= j < i ==> !LegacyScreenMatch(rooms[j].1, self, o)
    ensures rest.None? <==> forall i :: 0 <= i < |rooms| ==> !LegacyScreenMatch(rooms[i].1, self, o)
  {
    if rest.Some? {
      var i :| 0 <= i < |rooms[1..]| && rooms[1..][i].0 == rest.value &&
               LegacyScreenMatch(rooms[1..][i].1, self, o) &&
               forall j :: 0 <= j < i ==> !LegacyScreenMatch(rooms[1..][j].1, self, o);
      assert rooms[i + 1] == rooms[1..][i];
      assert forall j :: 0 < j < i + 1 ==> rooms[j] == rooms[1..][j - 1];
    } else {
      assert forall i :: 0 < i < |rooms| ==> rooms[i] == rooms[1..][i - 1];
    }
  }

  // ---------------------------------------------------------------------
  // UserSearchRecyclerAdapter.createChattingRoom (older revision)
  // ---------------------------------------------------------------------

  /** The older search adapter's decision: the query is every room the
      opponent has joined, with anyone, and the candidate is pushed only
      when that query is empty. `currentUser` is a late-initialised
      property, unset until the caller's own record was seen. */
  function LegacySearchCreate(rooms: seq<KeyedRoom>, currentUser: Option<User>, opponent: User): (r: Result<Option<ChattingRoom>>)
    ensures currentUser.None? ==> r == Failure(UninitializedProperty)
    ensures r.Success? <==> currentUser.Some? && currentUser.value.uid.Some? && opponent.uid.Some?
    ensures r.Success? ==>
              (r.value.Some? <==> forall i :: 0 <= i < |rooms| ==> !JoinedBy(rooms[i].1, opponent.uid.value))
    ensures r.Success? && r.value.Some? ==> r.value.value == Candidate(currentUser.value.uid.value, opponent.uid.value)
  {
    if currentUser.None? then Failure(UninitializedProperty)
    else
      var s :- Deref(currentUser.value.uid);
      var o :- Deref(opponent.uid);
      var joined := JoinedRooms(rooms, o);
      if joined == [] then Success(Some(Candidate(s, o)))
      else
        var x := joined[0];
        assert x in rooms;
        Success(None)
  }

  /** The room of an opponent who has joined a room with a third user. */
  function BobAndCarol(): ChattingRoom {
    ChattingRoom(Some([("bob", ChattingState(true, true)), ("carol", ChattingState(true, false))]), None)
  }

  lemma LegacyBlockedByThirdUser()
    ensures LegacySearchCreate([("r1", BobAndCarol())], Some(User(Some("Kim"), Some("kim@mail"), Some("Kim"))),
                               User(Some("Bob"), Some("bob@mail"), Some("bob"))) == Success(None)
  {
    assert JoinedBy(BobAndCarol(), "bob");
  }

  /** The fixed vocabulary of the rendering has no capital letter but `S`. */
  lemma StateTextLacks(st: ChattingState, c: char)
    requires 'A' <= c <= 'Z' && c != 'S'
    ensures c !in StateText(st)
  {
  }

  /** A capital other than `S` that no key holds is nowhere in the text. */
  lemma {:induction false} UsersEntriesLack(es: Users, c: char)
    requires 'A' <= c <= 'Z' && c != 'S'
    requires forall i :: 0 <= i < |es| ==> c !in es[i].0
    ensures c !in EntriesText(es, StateText)
    decreases |es|
  {
    if es != [] {
      StateTextLacks(es[0].1, c);
      if |es| > 1 {
        UsersEntriesLack(es[1..], c);
      }
    }
  }

  lemma CurrentCreatesDespiteThirdUser()
    ensures Resolve([("r1", BobAndCarol())], Some("Kim"), Some("bob")) == Success(Create(Candidate("Kim", "bob")))
  {
    var rooms := [("r1", BobAndCarol())];
    var users := BobAndCarol().users.value;
    UsersEntriesLack(users, 'K');
    var text := UsersText(BobAndCarol().users);
    assert 'K' !in text;
    AbsentHeadNotContained(text, "Kim");
    assert RoomTexts(rooms) == [text];
  }

  /** An opponent who has joined a room with a third user blocks the older
      adapter from creating a room with the caller, although no room holds
      the two of them; the current revision creates it. */
  lemma LegacySearchSkipsNewPair()
    ensures var rooms := [("r1", BobAndCarol())];
            var me := User(Some("Kim"), Some("kim@mail"), Some("Kim"));
            var bob := User(Some("Bob"), Some("bob@mail"), Some("bob"));
            LegacySearchCreate(rooms, Some(me), bob) == Success(None) &&
            Resolve(rooms, Some("Kim"), Some("bob")) == Success(Create(Candidate("Kim", "bob")))
  {
    LegacyBlockedByThirdUser();
    CurrentCreatesDespiteThirdUser();
  }
}
