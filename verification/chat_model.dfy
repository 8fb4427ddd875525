/** The conversation records as the client reads them from the store.

    A conversation (`ChattingRoom`) maps participant uids to their presence
    record and message keys to messages. Both maps are nullable in the
    Kotlin data class; a map absent from the store decodes to the empty
    default, but the type still admits null and some copies test for it.
    The older revision of the client stored presence as a plain boolean per
    participant (`LegacyRoom`).
 */
module ChatModel {
  import opened Wrappers
  import opened LinkedMap

  /** Per-participant presence: `joinState` is membership (false once the
      participant has left), `onlineState` is "currently viewing the room". */
  datatype ChattingState = ChattingState(joinState: bool, onlineState: bool)

  /** A chat message. `sendingDate` is the `yyyyMMddHHmmss` timestamp string;
      `confirmed` is the read receipt. */
  datatype Message = Message(senderUid: string, sendingDate: string, content: string, confirmed: bool)

  type Users = Entries<ChattingState>
  type Messages = Entries<Message>

  datatype ChattingRoom = ChattingRoom(users: Option<Users>, messages: Option<Messages>)

  /** The older revision's room: presence is one boolean per participant. */
  datatype LegacyRoom = LegacyRoom(users: Option<Entries<bool>>, messages: Option<Messages>)

  /** A registered user; every field is nullable in the store's data class. */
  datatype User = User(name: Option<string>, email: Option<string>, uid: Option<string>)

  /** A conversation together with its store key, as the list screens hold it. */
  type KeyedRoom = (string, ChattingRoom)

  /** A child event of a store listener. The key of a snapshot and its
      decoded value are both nullable; `ChildMoved` and `Cancelled` carry
      nothing the modelled handlers read. */
  datatype ChildEvent<T> =
    | ChildAdded(key: Option<string>, value: Option<T>)
    | ChildChanged(key: Option<string>, value: Option<T>)
    | ChildRemoved(key: Option<string>)
    | ChildMoved
    | Cancelled

  /** An added or changed event whose key and value are both present. */
  predicate IsUpsert<T>(e: ChildEvent<T>) {
    (e.ChildAdded? || e.ChildChanged?) && e.key.Some? && e.value.Some?
  }

  /** The snapshot key an event carries; null for events without one. */
  function EventKey<T>(e: ChildEvent<T>): (k: Option<string>)
    ensures e.ChildAdded? || e.ChildChanged? || e.ChildRemoved? ==> k == e.key
    ensures e.ChildMoved? || e.Cancelled? ==> k.None?
  {
    match e
    case ChildAdded(k, _) => k
    case ChildChanged(k, _) => k
    case ChildRemoved(k) => k
    case _ => None
  }
}
