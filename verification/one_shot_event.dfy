/** The one-shot wrapper the view models post store errors in: its content
    is handed out by the first `getContentIfNotHandled` call and every
    later call gets null, however many observers ask.
 */
module OneShotEvent {
  import opened Wrappers

  datatype Event<T> = Event(content: T, handled: bool)

  /** `Event(content)`: not yet handled. */
  function NewEvent<T>(content: T): (e: Event<T>)
    ensures e.content == content && !e.handled
  {
    Event(content, false)
  }

  /** `getContentIfNotHandled`: the content the first time, null after;
      the call marks the event handled and never unmarks it. */
  function GetContentIfNotHandled<T>(e: Event<T>): (r: (Option<T>, Event<T>))
    ensures r.1.content == e.content && r.1.handled
    ensures r.0.Some? <==> !e.handled
    ensures r.0.Some? ==> r.0.value == e.content
  {
    if e.handled then (None, e) else (Some(e.content), e.(handled := true))
  }

  /** What `n` successive calls return. */
  function Calls<T>(e: Event<T>, n: nat): (r: seq<Option<T>>)
    ensures |r| == n
    decreases n
  {
    if n == 0 then []
    else
      var (got, next) := GetContentIfNotHandled(e);
      [got] + Calls(next, n - 1)
  }

  /** A handled event answers null forever. */
  lemma {:induction false} HandledStaysNull<T>(e: Event<T>, n: nat)
    requires e.handled
    ensures forall i :: 0 <= i < n ==> Calls(e, n)[i].None?
    decreases n
  {
    if n > 0 {
      HandledStaysNull(e, n - 1);
      var rest := Calls(e, n - 1);
      assert Calls(e, n) == [None] + rest;
    }
  }

  /** Of any number of calls on a fresh event, the first returns the
      content and all the others return null. */
  lemma OnlyFirstCallGetsContent<T>(c: T, n: nat)
    requires n >= 1
    ensures Calls(NewEvent(c), n)[0] == Some(c)
    ensures forall i :: 1 <= i < n ==> Calls(NewEvent(c), n)[i].None?
  {
    var next := GetContentIfNotHandled(NewEvent(c)).1;
    HandledStaysNull(next, n - 1);
    assert Calls(NewEvent(c), n) == [Some(c)] + Calls(next, n - 1);
  }
}
