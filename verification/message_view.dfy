/** The message list adapter of the current revision.

    It keeps its own insertion-ordered message map and two derived lists,
    the keys and the message bodies, which the view holders index by
    position. An added event stores the message under its key with `!!` on
    both, a changed event only flips `confirmed` to true on the message it
    already holds under that key (whatever the event carries), and a
    removed event deletes the key. Binding a bubble renders its date text,
    which throws on a malformed timestamp, then issues the read receipt for
    the opponent's messages and offers deletion on the caller's own.
 */
module MessageView {
  import opened Wrappers
  import opened LinkedMap
  import opened ChatModel
  import opened MessageLog
  import opened Timestamp

  datatype MessageView = MessageView(data: Messages, keys: seq<string>, body: seq<Message>)

  /** `messageKey[i]` is the key of `messageBody[i]`, both in map order. */
  predicate Aligned(v: MessageView) {
    v.keys == Keys(v.data) && v.body == Values(v.data)
  }

  /** The adapter as constructed, before its first event. */
  function Initial(): (v: MessageView)
    ensures Aligned(v) && v.data == []
  {
    MessageView([], [], [])
  }

  /** The map with `confirmed` set on the message under `k`. */
  function Confirm(ms: Messages, k: string): (r: Messages)
    requires HasKey(ms, k)
    ensures Get(r, k) == Some(Get(ms, k).value.(confirmed := true))
    ensures forall k' :: k' != k ==> Get(r, k') == Get(ms, k')
    ensures Keys(r) == Keys(ms)
  {
    PutKeys(ms, k, Get(ms, k).value.(confirmed := true));
    Put(ms, k, Get(ms, k).value.(confirmed := true))
  }

  /** One child event applied by the adapter. A changed event copies the
      map, sets the flag in the copy if the key is there, and in the commit
      callback sets it on the held message with `!!`, which throws when
      the key is null or not held; it refreshes the bodies only. */
  function ViewApply(v: MessageView, e: ChildEvent<Message>): (r: Result<MessageView>)
    ensures e.ChildAdded? ==> (r.Failure? <==> e.key.None? || e.value.None?)
    ensures e.ChildAdded? && r.Success? ==>
              r.value.data == Put(v.data, e.key.value, e.value.value)
    ensures e.ChildChanged? ==> (r.Failure? <==> e.key.None? || !HasKey(v.data, e.key.value))
    ensures e.ChildChanged? && r.Success? ==>
              Get(r.value.data, e.key.value) == Some(Get(v.data, e.key.value).value.(confirmed := true)) &&
              (forall k :: k != e.key.value ==> Get(r.value.data, k) == Get(v.data, k)) &&
              r.value.keys == v.keys
    ensures e.ChildRemoved? ==> (r.Success? &&
              (e.key.Some? ==> r.value.data == Remove(v.data, e.key.value)) &&
              (e.key.None? ==> r.value.data == v.data))
    ensures e.ChildMoved? || e.Cancelled? ==> r == Success(v)
    ensures r.Success? && Aligned(v) ==> Aligned(r.value)
  {
    match e
    case ChildAdded(k, m) =>
      var key :- Deref(k);
      var message :- Deref(m);
      var data := Put(v.data, key, message);
      Success(MessageView(data, Keys(data), Values(data)))
    case ChildChanged(k, _) =>
      if k.None? || !HasKey(v.data, k.value) then Failure(NullDereference)
      else
        var data := Confirm(v.data, k.value);
        Success(MessageView(data, v.keys, Values(data)))
    case ChildRemoved(k) =>
      var data := if k.Some? then Remove(v.data, k.value) else v.data;
      Success(MessageView(data, Keys(data), Values(data)))
    case ChildMoved => Success(v)
    case Cancelled => Success(v)
  }

  /** A changed event's payload is never read. */
  lemma ChangedIgnoresPayload(v: MessageView, k: Option<string>, p: Option<Message>, q: Option<Message>)
    ensures ViewApply(v, ChildChanged(k, p)) == ViewApply(v, ChildChanged(k, q))
  {
  }

  /** Replaying a changed event changes nothing more. */
  lemma ChangedIdempotent(v: MessageView, k: string, p: Option<Message>)
    requires ViewApply(v, ChildChanged(Some(k), p)).Success?
    ensures var once := ViewApply(v, ChildChanged(Some(k), p)).value;
            ViewApply(once, ChildChanged(Some(k), p)) == Success(once)
  {
    var once := ViewApply(v, ChildChanged(Some(k), p)).value;
    var m := Get(once.data, k).value;
    assert m.(confirmed := true) == m;
    PutSame(once.data, k, m);
  }

  /** `getItemViewType`: 1 for a message the current user sent, else 0; a
      null current uid matches no sender. */
  function ViewType(m: Message, uid: Option<string>): (t: int)
    ensures t == 0 || t == 1
    ensures t == 1 <==> uid == Some(m.senderUid)
  {
    if uid == Some(m.senderUid) then 1 else 0
  }

  /** What binding a bubble does besides drawing it. */
  datatype BubbleAction =
    | ConfirmRead(messageKey: string)   // the opponent's bubble writes the read receipt
    | OfferDelete(messageKey: string)   // the caller's bubble gets the delete dialog

  /** A bound bubble: its date text, what the bind did, and the adapter after it. */
  datatype Bound = Bound(dateText: string, action: BubbleAction, view: MessageView)

  /** Binding the bubble at position `i`: the holder is chosen by view type;
      either holder first renders the date text, which throws on a
      malformed timestamp; then the opponent's holder writes
      `confirmed = true` for `messageKey[i]` and sets the flag on the held
      message, and the caller's holder attaches the delete action for
      `messageKey[i]`. */
  function Bind(v: MessageView, i: nat, uid: Option<string>): (r: Result<Bound>)
    requires Aligned(v) && i < |v.data|
    ensures r.Failure? <==> DateText(v.data[i].1.sendingDate).Failure?
    ensures r.Success? ==> r.value.dateText == DateText(v.data[i].1.sendingDate).value
    ensures r.Success? ==> r.value.action.messageKey == v.data[i].0
    ensures r.Success? ==> (r.value.action.ConfirmRead? <==> uid != Some(v.data[i].1.senderUid))
    ensures r.Success? && r.value.action.OfferDelete? ==> r.value.view == v
    ensures r.Success? && r.value.action.ConfirmRead? ==> Aligned(r.value.view) && Keys(r.value.view.data) == Keys(v.data)
  {
    var k := v.keys[i];
    var date :- DateText(v.body[i].sendingDate);
    if ViewType(v.body[i], uid) == 1 then Success(Bound(date, OfferDelete(k), v))
    else
      assert v.data[i].0 == k;
      var data := Confirm(v.data, k);
      Success(Bound(date, ConfirmRead(k), MessageView(data, v.keys, Values(data))))
  }

  /** The receipt a bind writes, applied by the store that holds the bound
      message under the same key, marks that message read and touches no
      other message; the local copy ends up the same. */
  lemma ReceiptMarksBoundMessage(v: MessageView, i: nat, uid: Option<string>, store: Messages)
    requires Aligned(v) && UniqueKeys(v.data) && i < |v.data|
    requires Get(store, v.data[i].0) == Some(v.data[i].1)
    requires Bind(v, i, uid).Success? && Bind(v, i, uid).value.action.ConfirmRead?
    ensures var after := ReadWrite(store, Bind(v, i, uid).value.action.messageKey);
            Get(after, v.data[i].0) == Some(v.data[i].1.(confirmed := true)) &&
            (forall k :: k != v.data[i].0 ==> Get(after, k) == Get(store, k)) &&
            Get(Bind(v, i, uid).value.view.data, v.data[i].0) == Get(after, v.data[i].0)
  {
    GetAt(v.data, i);
  }

  /** A malformed timestamp crashes the bind before any receipt is written. */
  lemma MalformedDateCrashesBind(k: string, sender: string, uid: Option<string>)
    ensures var v := MessageView([(k, Message(sender, "x", "hi", false))], [k], [Message(sender, "x", "hi", false)]);
            Aligned(v) && Bind(v, 0, uid).Failure?
  {
  }
}
