/** The local mirror of a store node that the repositories keep.

    Both repositories (the room list and the message log) hold an
    insertion-ordered map from child key to decoded child and update it
    from child events in the same way: an added or changed event stores the
    decoded value under the snapshot key, a removed event deletes the key,
    and an event whose key is null, or whose value does not decode, returns
    before touching the map. Moved and cancelled events do nothing.
 */
module Mirror {
  import opened Wrappers
  import opened LinkedMap
  import opened ChatModel

  /** The events that reach the map: an upsert with key and value present,
      or a removal with a key. */
  predicate Handled<T>(e: ChildEvent<T>) {
    IsUpsert(e) || (e.ChildRemoved? && e.key.Some?)
  }

  /** One child event applied to the mirror. */
  function MirrorApply<T(==)>(m: Entries<T>, e: ChildEvent<T>): (r: Entries<T>)
    ensures IsUpsert(e) ==> Get(r, e.key.value) == Some(e.value.value)
    ensures e.ChildRemoved? && e.key.Some? ==> !HasKey(r, e.key.value)
    ensures forall k :: EventKey(e) != Some(k) ==> Get(r, k) == Get(m, k)
    ensures !Handled(e) ==> r == m
    ensures IsUpsert(e) && HasKey(m, e.key.value) ==> Keys(r) == Keys(m)
    ensures IsUpsert(e) && !HasKey(m, e.key.value) ==> Keys(r) == Keys(m) + [e.key.value]
    ensures UniqueKeys(m) ==> UniqueKeys(r)
  {
    if IsUpsert(e) then
      var k, v := e.key.value, e.value.value;
      PutKeys(m, k, v);
      assert UniqueKeys(m) ==> UniqueKeys(Put(m, k, v)) by {
        if UniqueKeys(m) { PutUnique(m, k, v); }
      }
      Put(m, k, v)
    else if e.ChildRemoved? && e.key.Some? then
      assert UniqueKeys(m) ==> UniqueKeys(Remove(m, e.key.value)) by {
        if UniqueKeys(m) { RemoveUnique(m, e.key.value); }
      }
      Remove(m, e.key.value)
    else m
  }

  /** The mirror after a sequence of events. */
  function Replay<T(==)>(m: Entries<T>, events: seq<ChildEvent<T>>): Entries<T>
    decreases |events|
  {
    if events == [] then m
    else Replay(MirrorApply(m, events[0]), events[1..])
  }

  /** The reference meaning of a key after a sequence of events: the value
      of its last handled upsert, null after its last handled removal, the
      initial binding if no handled event names it. */
  function LastBinding<T>(events: seq<ChildEvent<T>>, k: string, init: Option<T>): Option<T>
    decreases |events|
  {
    if events == [] then init
    else
      var e := events[0];
      var next :=
        if IsUpsert(e) && e.key.value == k then e.value
        else if e.ChildRemoved? && e.key == Some(k) then None
        else init;
      LastBinding(events[1..], k, next)
  }

  /** Replaying events leaves each key bound to its last written value. */
  lemma {:induction false} ReplayIsLastBinding<T>(m: Entries<T>, events: seq<ChildEvent<T>>, k: string)
    ensures Get(Replay(m, events), k) == LastBinding(events, k, Get(m, k))
    decreases |events|
  {
    if events != [] {
      var e := events[0];
      var next := MirrorApply(m, e);
      ReplayIsLastBinding(next, events[1..], k);
      if e.ChildRemoved? && e.key == Some(k) {
        assert Get(next, k) == None;
      }
    }
  }

  /** Replaying the same upsert twice is replaying it once. */
  lemma UpsertIdempotent<T>(m: Entries<T>, e: ChildEvent<T>)
    requires IsUpsert(e)
    ensures MirrorApply(MirrorApply(m, e), e) == MirrorApply(m, e)
  {
    var k, v := e.key.value, e.value.value;
    var r := MirrorApply(m, e);
    PutSame(r, k, v);
  }
}
