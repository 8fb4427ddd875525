/** The user directory behind the new-conversation screen: loading every
    user except the caller, and filtering by name.

    Three copies exist. The current search adapter rebuilds its list on
    every change of the `User` node and filters case-sensitively on
    `name!!`; the view model drops undecodable children and filters
    case-insensitively, treating a blank query as no query; the older
    adapter never clears its accumulated list and remembers the caller's
    own record as `currentUser`.
 */
module UserSearch {
  import opened Wrappers
  import opened Text
  import opened ChatModel

  // ---------------------------------------------------------------------
  // Order-preserving filter
  // ---------------------------------------------------------------------

  /** `a` is `b` with some elements dropped, the rest in order. */
  ghost predicate SubsequenceOf<T>(a: seq<T>, b: seq<T>)
    decreases |b|
  {
    if a == [] then true
    else if b == [] then false
    else (a[0] == b[0] && SubsequenceOf(a[1..], b[1..])) || SubsequenceOf(a, b[1..])
  }

  /** Kotlin's `filter`. */
  function Filter<T>(s: seq<T>, p: T -> bool): (r: seq<T>)
    ensures |r| <= |s|
    ensures forall i :: 0 <= i < |r| ==> r[i] in s && p(r[i])
    ensures forall i :: 0 <= i < |s| && p(s[i]) ==> s[i] in r
    decreases |s|
  {
    if s == [] then []
    else (if p(s[0]) then [s[0]] else []) + Filter(s[1..], p)
  }

  lemma {:induction false} FilterIsSubsequence<T>(s: seq<T>, p: T -> bool)
    ensures SubsequenceOf(Filter(s, p), s)
    decreases |s|
  {
    if s != [] {
      var rest := Filter(s[1..], p);
      FilterIsSubsequence(s[1..], p);
      if p(s[0]) {
        assert Filter(s, p) == [s[0]] + rest;
        assert ([s[0]] + rest)[1..] == rest;
      } else {
        assert Filter(s, p) == rest;
        SubsequenceDropHead(rest, s[0], s[1..]);
        assert [s[0]] + s[1..] == s;
      }
    }
  }

  lemma SubsequenceDropHead<T>(a: seq<T>, x: T, b: seq<T>)
    requires SubsequenceOf(a, b)
    ensures SubsequenceOf(a, [x] + b)
  {
    assert ([x] + b)[1..] == b;
  }

  lemma {:induction false} SubsequenceRefl<T>(a: seq<T>)
    ensures SubsequenceOf(a, a)
    decreases |a|
  {
    if a != [] {
      SubsequenceRefl(a[1..]);
    }
  }

  /** Filtering with a weaker test keeps everything a stronger test keeps,
      in the same order. */
  lemma {:induction false} FilterMonotone<T>(s: seq<T>, p: T -> bool, q: T -> bool)
    requires forall x :: p(x) ==> q(x)
    ensures SubsequenceOf(Filter(s, p), Filter(s, q))
    decreases |s|
  {
    if s != [] {
      FilterMonotone(s[1..], p, q);
      var fp, fq := Filter(s[1..], p), Filter(s[1..], q);
      if p(s[0]) {
        assert Filter(s, p) == [s[0]] + fp;
        assert Filter(s, q) == [s[0]] + fq;
        assert ([s[0]] + fp)[1..] == fp;
        assert ([s[0]] + fq)[1..] == fq;
      } else if q(s[0]) {
        assert Filter(s, p) == fp;
        assert Filter(s, q) == [s[0]] + fq;
        SubsequenceDropHead(fp, s[0], fq);
      } else {
        assert Filter(s, p) == fp;
        assert Filter(s, q) == fq;
      }
    }
  }

  // ---------------------------------------------------------------------
  // Loading the directory
  // ---------------------------------------------------------------------

  /** `item?.uid.equals(self)`: a null item or a null uid reads as a null
      receiver, and a null receiver equals only a null argument. */
  predicate IsSelf(item: Option<User>, self: Option<string>) {
    (if item.None? then None else item.value.uid) == self
  }

  /** The users a snapshot lists besides the caller: undecodable children
      are dropped. */
  function Others(children: seq<Option<User>>, self: Option<string>): (r: seq<User>)
    ensures |r| <= |children|
    ensures forall i :: 0 <= i < |r| ==> Some(r[i]) in children && r[i].uid != self
    ensures forall i :: 0 <= i < |children| && children[i].Some? && children[i].value.uid != self ==>
              children[i].value in r
    decreases |children|
  {
    if children == [] then []
    else
      var head := match children[0]
                  case Some(u) => if u.uid != self then [u] else []
                  case None => [];
      head + Others(children[1..], self)
  }

  /** `mapNotNull`: the children that decode, in order. */
  function Decoded(children: seq<Option<User>>): (r: seq<User>)
    ensures forall u :: u in r <==> Some(u) in children
    decreases |children|
  {
    if children == [] then []
    else (if children[0].Some? then [children[0].value] else []) + Decoded(children[1..])
  }

  /** `filter { it.uid != self }`. */
  function WithoutSelf(users: seq<User>, self: Option<string>): (r: seq<User>)
    ensures forall u :: u in r <==> u in users && u.uid != self
    decreases |users|
  {
    if users == [] then []
    else (if users[0].uid != self then [users[0]] else []) + WithoutSelf(users[1..], self)
  }

  /** `NewChatViewModel.getAllUsers`: `mapNotNull` over the children, then
      every user whose uid is not the caller's. */
  function GetAllUsers(children: seq<Option<User>>, self: Option<string>): (r: seq<User>)
    ensures forall u :: u in r <==> Some(u) in children && u.uid != self
  {
    WithoutSelf(Decoded(children), self)
  }

  /** Skipping the caller while walking the children is filtering the
      decoded users. */
  lemma {:induction false} OthersIsGetAllUsers(children: seq<Option<User>>, self: Option<string>)
    ensures Others(children, self) == GetAllUsers(children, self)
    decreases |children|
  {
    if children != [] {
      OthersIsGetAllUsers(children[1..], self);
      var rest := Decoded(children[1..]);
      if children[0].Some? {
        var u := children[0].value;
        assert Decoded(children) == [u] + rest;
        assert ([u] + rest)[1..] == rest;
        assert WithoutSelf([u] + rest, self) == (if u.uid != self then [u] else []) + WithoutSelf(rest, self);
      } else {
        assert Decoded(children) == rest;
      }
    }
  }

  /** `setAllUser` of the current adapter, on one snapshot: the list is
      cleared, the caller's record is skipped, and every other child is
      appended with `!!`, which throws on a null child unless the caller's
      uid is null too (then the null child counts as the caller). */
  function SetAllUser(children: seq<Option<User>>, self: Option<string>): (r: Result<seq<User>>)
    ensures r.Failure? <==> exists i :: 0 <= i < |children| && children[i].None? && self.Some?
    ensures r.Failure? ==> r.error == NullDereference
    ensures r.Success? ==> r.value == Others(children, self)
    decreases |children|
  {
    if children == [] then Success([])
    else
      var item := children[0];
      var rest := SetAllUser(children[1..], self);
      assert rest.Failure? <==> exists i :: 0 <= i < |children| && 0 < i && children[i].None? && self.Some? by {
        if exists i :: 0 <= i < |children| && 0 < i && children[i].None? && self.Some? {
          var i :| 0 <= i < |children| && 0 < i && children[i].None? && self.Some?;
          assert children[1..][i - 1] == children[i];
        }
      }
      if IsSelf(item, self) then rest
      else if item.None? then Failure(NullDereference)
      else
        var tail :- rest;
        Success([item.value] + tail)
  }

  /** Both current copies load the same list whenever the adapter does not
      crash; the view model never crashes. */
  lemma SetAllUserAgrees(children: seq<Option<User>>, self: Option<string>)
    requires SetAllUser(children, self).Success?
    ensures SetAllUser(children, self).value == GetAllUsers(children, self)
  {
    OthersIsGetAllUsers(children, self);
  }

  // ---------------------------------------------------------------------
  // Filtering by name
  // ---------------------------------------------------------------------

  predicate NameContains(u: User, query: string) {
    u.name.Some? && Contains(u.name.value, query)
  }

  predicate NameContainsIgnoreCase(u: User, query: string) {
    u.name.Some? && ContainsIgnoreCase(u.name.value, query)
  }

  /** `searchName` of the current adapter: the empty query shows everyone;
      otherwise the case-sensitive name filter, whose `name!!` throws as
      soon as it meets a user without a name. */
  function SearchName(all: seq<User>, query: string): (r: Result<seq<User>>)
    ensures query == [] ==> r == Success(all)
    ensures query != [] ==> (r.Failure? <==> exists i :: 0 <= i < |all| && all[i].name.None?)
    ensures r.Success? ==> SubsequenceOf(r.value, all)
    ensures r.Success? && query != [] ==>
              (forall i :: 0 <= i < |r.value| ==> NameContains(r.value[i], query)) &&
              (forall i :: 0 <= i < |all| && NameContains(all[i], query) ==> all[i] in r.value)
  {
    if query == [] then
      SubsequenceRefl(all);
      Success(all)
    else if exists i :: 0 <= i < |all| && all[i].name.None? then Failure(NullDereference)
    else
      FilterIsSubsequence(all, (u: User) => NameContains(u, query));
      Success(Filter(all, (u: User) => NameContains(u, query)))
  }

  /** `NewChatViewModel.searchUser`: a blank query shows everyone; otherwise
      the users whose name contains the query ignoring case, a null name
      never matching. */
  function SearchUser(all: seq<User>, query: string): (r: seq<User>)
    ensures IsBlank(query) ==> r == all
    ensures SubsequenceOf(r, all)
    ensures !IsBlank(query) ==>
              (forall i :: 0 <= i < |r| ==> NameContainsIgnoreCase(r[i], query)) &&
              (forall i :: 0 <= i < |all| && NameContainsIgnoreCase(all[i], query) ==> all[i] in r)
  {
    if IsBlank(query) then
      SubsequenceRefl(all);
      all
    else
      FilterIsSubsequence(all, (u: User) => NameContainsIgnoreCase(u, query));
      Filter(all, (u: User) => NameContainsIgnoreCase(u, query))
  }

  /** Whatever the adapter's case-sensitive search shows, the view model's
      search shows too, in the same order. */
  lemma SearchNameWithinSearchUser(all: seq<User>, query: string)
    requires SearchName(all, query).Success?
    ensures SubsequenceOf(SearchName(all, query).value, SearchUser(all, query))
  {
    if query == [] {
      assert IsBlank(query);
      SubsequenceRefl(all);
    } else if IsBlank(query) {
      FilterIsSubsequence(all, (u: User) => NameContains(u, query));
    } else {
      forall u: User | NameContains(u, query) ensures NameContainsIgnoreCase(u, query) {
        ContainsImpliesIgnoreCase(u.name.value, query);
      }
      FilterMonotone(all, (u: User) => NameContains(u, query), (u: User) => NameContainsIgnoreCase(u, query));
    }
  }

  // ---------------------------------------------------------------------
  // The older adapter
  // ---------------------------------------------------------------------

  /** The older adapter's state: the accumulated users, the displayed list
      and the late-initialised `currentUser`. */
  datatype LegacyDirectory = LegacyDirectory(allUsers: seq<User>, userList: seq<User>, currentUser: Option<User>)

  function LegacyInitial(): LegacyDirectory {
    LegacyDirectory([], [], None)
  }

  /** One child of the older `setAllUser` loop. */
  function LegacyStep(d: LegacyDirectory, item: Option<User>, uid: string): (r: Result<LegacyDirectory>)
    ensures r.Failure? <==> item.None?
    ensures r.Success? && IsSelf(item, Some(uid)) ==> r.value == d.(currentUser := item)
    ensures r.Success? && !IsSelf(item, Some(uid)) ==>
              r.value.allUsers == d.allUsers + [item.value] && r.value.userList == r.value.allUsers &&
              r.value.currentUser == d.currentUser
  {
    if IsSelf(item, Some(uid)) then Success(d.(currentUser := item))
    else
      var u :- Deref(item);
      var all := d.allUsers + [u];
      Success(LegacyDirectory(all, all, d.currentUser))
  }

  function LegacyLoop(d: LegacyDirectory, children: seq<Option<User>>, uid: string): Result<LegacyDirectory>
    decreases |children|
  {
    if children == [] then Success(d)
    else
      var next :- LegacyStep(d, children[0], uid);
      LegacyLoop(next, children[1..], uid)
  }

  /** The last record of the caller's own in a snapshot, if any. */
  function LastSelf(children: seq<Option<User>>, uid: string, init: Option<User>): Option<User>
    decreases |children|
  {
    if children == [] then init
    else LastSelf(children[1..], uid, if IsSelf(children[0], Some(uid)) then children[0] else init)
  }

  /** `setAllUser` of the older adapter, on one snapshot: `userList` is
      cleared, `allUserList` is not; each other user is appended to
      `allUserList` and `userList` becomes a copy of it. */
  function LegacySetAllUser(d: LegacyDirectory, children: seq<Option<User>>, uid: string): (r: Result<LegacyDirectory>)
    ensures r.Failure? <==> HasNull(children)
    ensures r.Success? ==> r.value.allUsers == d.allUsers + Others(children, Some(uid))
    ensures r.Success? ==> r.value.userList == (if Others(children, Some(uid)) == [] then [] else r.value.allUsers)
    ensures r.Success? ==> r.value.currentUser == LastSelf(children, uid, d.currentUser)
  {
    LegacyLoopFails(d.(userList := []), children, uid);
    LegacyLoopResult(d.(userList := []), children, uid);
    LegacyLoopCurrent(d.(userList := []), children, uid);
    LegacyLoop(d.(userList := []), children, uid)
  }

  /** Some child of the snapshot does not decode. */
  predicate HasNull(children: seq<Option<User>>) {
    exists i :: 0 <= i < |children| && children[i].None?
  }

  lemma HasNullCons(children: seq<Option<User>>)
    requires children != []
    ensures HasNull(children) <==> children[0].None? || HasNull(children[1..])
  {
    if HasNull(children) {
      var i :| 0 <= i < |children| && children[i].None?;
      if i > 0 { assert children[1..][i - 1].None?; }
    }
    if HasNull(children[1..]) {
      var i :| 0 <= i < |children[1..]| && children[1..][i].None?;
      assert children[i + 1].None?;
    }
  }

  lemma {:induction false} LegacyLoopFails(d: LegacyDirectory, children: seq<Option<User>>, uid: string)
    ensures LegacyLoop(d, children, uid).Failure? <==> HasNull(children)
    decreases |children|
  {
    if children != [] {
      HasNullCons(children);
      if children[0].Some? {
        LegacyLoopFails(LegacyStep(d, children[0], uid).value, children[1..], uid);
      }
    }
  }

  lemma {:induction false} LegacyLoopResult(d: LegacyDirectory, children: seq<Option<User>>, uid: string)
    ensures LegacyLoop(d, children, uid).Success? ==>
              LegacyLoop(d, children, uid).value.allUsers == d.allUsers + Others(children, Some(uid))
    ensures LegacyLoop(d, children, uid).Success? ==>
              LegacyLoop(d, children, uid).value.userList ==
                (if Others(children, Some(uid)) == [] then d.userList else LegacyLoop(d, children, uid).value.allUsers)
    decreases |children|
  {
    if children != [] && children[0].Some? {
      var item := children[0];
      var next := LegacyStep(d, item, uid).value;
      assert LegacyLoop(d, children, uid) == LegacyLoop(next, children[1..], uid);
      LegacyLoopResult(next, children[1..], uid);
      if IsSelf(item, Some(uid)) {
        assert Others(children, Some(uid)) == Others(children[1..], Some(uid));
      } else {
        assert Others(children, Some(uid)) == [item.value] + Others(children[1..], Some(uid));
        assert d.allUsers + [item.value] + Others(children[1..], Some(uid))
            == d.allUsers + Others(children, Some(uid));
      }
    }
  }

  lemma {:induction false} LegacyLoopCurrent(d: LegacyDirectory, children: seq<Option<User>>, uid: string)
    ensures LegacyLoop(d, children, uid).Success? ==>
              LegacyLoop(d, children, uid).value.currentUser == LastSelf(children, uid, d.currentUser)
    decreases |children|
  {
    if children != [] && children[0].Some? {
      var next := LegacyStep(d, children[0], uid).value;
      assert LegacyLoop(d, children, uid) == LegacyLoop(next, children[1..], uid);
      LegacyLoopCurrent(next, children[1..], uid);
    }
  }

  /** Every change of the `User` node appends the other users again: two
      loads of the same snapshot list everyone twice. The current adapter
      shows the snapshot's users once however often it reloads. */
  lemma LegacyReloadDuplicates(children: seq<Option<User>>, uid: string)
    requires forall i :: 0 <= i < |children| ==> children[i].Some?
    ensures var once := LegacySetAllUser(LegacyInitial(), children, uid);
            once.Success? && LegacySetAllUser(once.value, children, uid).Success? &&
            LegacySetAllUser(once.value, children, uid).value.userList ==
              GetAllUsers(children, Some(uid)) + GetAllUsers(children, Some(uid))
    ensures SetAllUser(children, Some(uid)) == Success(GetAllUsers(children, Some(uid)))
  {
    var others := Others(children, Some(uid));
    OthersIsGetAllUsers(children, Some(uid));
    var d := LegacyInitial();
    var once := LegacySetAllUser(d, children, uid).value;
    assert once.allUsers == others;
    var twice := LegacySetAllUser(once, children, uid).value;
    assert twice.allUsers == others + others;
  }

  /** `searchName` of the older adapter: the empty query shows a copy of
      every accumulated user; otherwise `userList` is refilled with the
      case-sensitive name filter, whose `name!!` throws on a user without a
      name. The accumulated list and `currentUser` are never touched. */
  function LegacySearchName(d: LegacyDirectory, query: string): (r: Result<LegacyDirectory>)
    ensures query == [] ==> r == Success(d.(userList := d.allUsers))
    ensures query != [] ==> (r.Failure? <==> exists i :: 0 <= i < |d.allUsers| && d.allUsers[i].name.None?)
    ensures r.Success? ==> r.value.allUsers == d.allUsers && r.value.currentUser == d.currentUser
    ensures r.Success? ==> SubsequenceOf(r.value.userList, d.allUsers)
    ensures r.Success? && query != [] ==>
              (forall i :: 0 <= i < |r.value.userList| ==> NameContains(r.value.userList[i], query)) &&
              (forall i :: 0 <= i < |d.allUsers| && NameContains(d.allUsers[i], query) ==> d.allUsers[i] in r.value.userList)
  {
    if query == [] then
      SubsequenceRefl(d.allUsers);
      Success(d.(userList := d.allUsers))
    else if exists i :: 0 <= i < |d.allUsers| && d.allUsers[i].name.None? then Failure(NullDereference)
    else
      FilterIsSubsequence(d.allUsers, (u: User) => NameContains(u, query));
      Success(d.(userList := Filter(d.allUsers, (u: User) => NameContains(u, query))))
  }

  /** Both adapters show the same users for the same list and query, and
      throw on the same inputs. */
  lemma LegacySearchNameAgrees(d: LegacyDirectory, query: string)
    ensures LegacySearchName(d, query).Success? <==> SearchName(d.allUsers, query).Success?
    ensures LegacySearchName(d, query).Success? ==>
              LegacySearchName(d, query).value.userList == SearchName(d.allUsers, query).value
  {
  }

  /** The current adapter's listener bookkeeping: whether the `lateinit`
      reference and listener properties were set, and whether the listener
      is attached to the store. */
  datatype Listening = Listening(refSet: bool, listenerSet: bool, attached: bool)

  /** `setAllUser`, which the constructor runs: both properties are set and
      the listener attached. */
  function Construct(): (l: Listening)
    ensures l.refSet && l.listenerSet && l.attached
  {
    Listening(true, true, true)
  }

  /** `detachDatabaseListener`: the listener is removed only when both
      properties were initialised; reading neither can throw. */
  function Detach(l: Listening): (r: Listening)
    ensures r.refSet == l.refSet && r.listenerSet == l.listenerSet
    ensures l.refSet && l.listenerSet ==> !r.attached
    ensures !(l.refSet && l.listenerSet) ==> r.attached == l.attached
  {
    if l.refSet && l.listenerSet then l.(attached := false) else l
  }

  /** Once the adapter was constructed, detaching leaves nothing attached,
      and detaching again changes nothing. */
  lemma DetachAfterConstruct()
    ensures !Detach(Construct()).attached
    ensures Detach(Detach(Construct())) == Detach(Construct())
  {
  }
}
