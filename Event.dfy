/** `Event<T>` (Source/Core/Messaging/Event.hpp): a list of persistent handlers and a list of
    handlers that fire once. Handlers are opaque values of type `H`; what running one does is the
    caller's business, so `Call` reports the handlers it runs, in the order it runs them. */
module Events {

  class Event<H> {
    /** `calls`: the persistent handlers, oldest first. */
    var calls: seq<H>
    /** `onceCalls`: the handlers dropped after the next `call`, oldest first. */
    var onceCalls: seq<H>

    constructor ()
      ensures calls == [] && onceCalls == []
    {
      calls := [];
      onceCalls := [];
    }

    /** `add`: the handler joins the end of the persistent list. */
    method Add(handler: H)
      modifies this
      ensures calls == old(calls) + [handler]
      ensures onceCalls == old(onceCalls)
    {
      calls := calls + [handler];
    }

    /** `addOnce`: the handler joins the end of the once list. */
    method AddOnce(handler: H)
      modifies this
      ensures onceCalls == old(onceCalls) + [handler]
      ensures calls == old(calls)
    {
      onceCalls := onceCalls + [handler];
    }

    /** `remove`: the most recently added persistent handler goes; with none left, nothing changes
        and the answer is false. The once list is never touched. */
    method Remove() returns (removed: bool)
      modifies this
      ensures removed <==> old(calls) != []
      ensures removed ==> calls == old(calls)[..|old(calls)| - 1]
      ensures !removed ==> calls == old(calls)
      ensures onceCalls == old(onceCalls)
    {
      if calls == [] {
        return false;
      }
      calls := calls[..|calls| - 1];
      return true;
    }

    /** `call`: every persistent handler in the order added, then every once handler in the order
        added; the once list is then emptied and the persistent list kept. */
    method Call() returns (invoked: seq<H>)
      modifies this
      ensures invoked == old(calls) + old(onceCalls)
      ensures calls == old(calls) && onceCalls == []
    {
      invoked := [];
      for i := 0 to |calls|
        invariant invoked == calls[..i]
      {
        invoked := invoked + [calls[i]];
      }
      assert calls[..|calls|] == calls;
      for i := 0 to |onceCalls|
        invariant invoked == calls + onceCalls[..i]
      {
        invoked := invoked + [onceCalls[i]];
      }
      assert onceCalls[..|onceCalls|] == onceCalls;
      onceCalls := [];
    }
  }

  /** Three handlers fire on every call; one `remove` leaves the first two; two more leave none. */
  method RemoveScenario<H>(first: H, second: H, third: H) returns (all: seq<H>, two: seq<H>, none: seq<H>)
    ensures all == [first, second, third]
    ensures two == [first, second]
    ensures none == []
  {
    var event := new Event<H>();
    event.Add(first);
    event.Add(second);
    event.Add(third);
    all := event.Call();
    var removed := event.Remove();
    two := event.Call();
    removed := event.Remove();
    removed := event.Remove();
    none := event.Call();
  }

  /** A once handler fires on the first call and not on the second. */
  method OnceScenario<H>(handler: H) returns (firstCall: seq<H>, secondCall: seq<H>)
    ensures firstCall == [handler]
    ensures secondCall == []
  {
    var event := new Event<H>();
    event.AddOnce(handler);
    firstCall := event.Call();
    secondCall := event.Call();
  }
}
