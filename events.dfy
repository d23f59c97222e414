/**
 * The event bus object. Its one field, the registry `c`, is updated in
 * place by `Subscribe` and `Unsubscribe` and read by `Publish`; each method
 * is proved to do to `c` what the function of the same name in `Registry`
 * describes, and the properties of those functions are proved there.
 */
module EventBus {
  import opened Registry

  class Events<H(==)> {
    /** Topic name to the ordered list of its handlers. */
    var c: Reg<H>

    /** A new bus has no topics. */
    constructor ()
      ensures c == map[]
    {
      c := map[];
    }

    /**
     * `subscribe(topic, ...handlers)`: create the topic's list when it has no
     * entry, then append each handler, one at a time, in the order given.
     */
    method Subscribe(topic: Topic, handlers: seq<H>)
      modifies this
      ensures c == Registry.Subscribe(old(c), topic, handlers)
      ensures topic in c && c[topic] == Handlers(old(c), topic) + handlers
      ensures SameElsewhere(old(c), c, topic)
      ensures NonEmpty(old(c)) ==> (NonEmpty(c) <==> handlers != [] || topic in old(c))
    {
      if NonEmpty(c) {
        SubscribeKeepsNonEmpty(c, topic, handlers);
      }
      if topic !in c {
        c := c[topic := []];
      }
      var i := 0;
      assert Handlers(old(c), topic) + handlers[..0] == Handlers(old(c), topic);
      while i < |handlers|
        invariant 0 <= i <= |handlers|
        invariant c == old(c)[topic := Handlers(old(c), topic) + handlers[..i]]
      {
        assert handlers[..i + 1] == handlers[..i] + [handlers[i]];
        assert c[topic] + [handlers[i]] == Handlers(old(c), topic) + handlers[..i + 1];
        c := c[topic := c[topic] + [handlers[i]]];
        i := i + 1;
      }
      assert handlers[..i] == handlers;
    }

    /**
     * `unsubscribe(topic, handler)`, `None` standing for an omitted handler:
     * remove the whole topic, or the first entry equal to `handler` and then
     * the topic if its list became empty. Returns whether anything was removed.
     */
    method Unsubscribe(topic: Topic, handler: Option<H>) returns (removed: bool)
      modifies this
      ensures (c, removed) == Registry.Unsubscribe(old(c), topic, handler)
      ensures removed <==> topic in old(c) && (handler.None? || handler.value in old(c)[topic])
      ensures !removed ==> c == old(c)
      ensures SameElsewhere(old(c), c, topic)
      ensures NonEmpty(old(c)) ==> NonEmpty(c)
    {
      UnsubscribeKeepsNonEmpty(c, topic, handler);
      if topic !in c {
        return false;
      }
      var t := c[topic];
      if handler.None? {
        c := c - {topic};
        return true;
      }
      var i := IndexOf(t, handler.value);
      if i < 0 {
        return false;
      }
      t := RemoveAt(t, i);
      if |t| == 0 {
        // the emptied list goes with its topic
        c := c - {topic};
      } else {
        c := c[topic := t];
      }
      return true;
    }

    /**
     * `publish(topic, ...args)`: `None` when the topic has no entry;
     * otherwise call each handler on `args` in list order and collect the
     * results in that order. The registry is not changed.
     */
    method Publish<A, R>(topic: Topic, args: A, call: (H, A) -> R) returns (responses: Option<seq<R>>)
      ensures responses.None? <==> topic !in c
      ensures responses.Some? ==> |responses.value| == |c[topic]|
      ensures responses.Some? ==>
        forall i :: 0 <= i < |responses.value| ==> responses.value[i] == call(c[topic][i], args)
      ensures responses == Registry.Publish(c, topic, args, call)
    {
      if topic !in c {
        return None;
      }
      var t := c[topic];
      var acc: seq<R> := [];
      var i := 0;
      while i < |t|
        invariant 0 <= i <= |t|
        invariant |acc| == i
        invariant forall k :: 0 <= k < i ==> acc[k] == call(t[k], args)
      {
        acc := acc + [call(t[i], args)];
        i := i + 1;
      }
      assert acc == Dispatch(t, args, call);
      responses := Some(acc);
    }
  }
}
