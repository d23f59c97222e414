/**
 * The registry as `events.ts` actually stores it. The field `c` starts out
 * as an empty JavaScript array used as a dictionary. Reading `c[topic]` for
 * a topic that has no entry of its own therefore gives whatever property
 * arrays inherit under that name. For the names of the methods on
 * Array.prototype and Object.prototype, that is a function, and a function
 * is truthy. Such a topic passes the source's "entry exists" tests although
 * nobody subscribed to it. After that, the source either reports a removal
 * or calls an array method on a function, which throws a TypeError.
 *
 * The functions here model the three operations as written, with that
 * lookup. For every other topic the lemma `AgreesOffInheritedNames` shows
 * that they match the `Registry` functions, and the rest of the model uses
 * those.
 */
module JsRegistry {
  import opened Registry

  /**
   * The names of the methods every array inherits in ECMAScript 5.1
   * (sections 15.2.4 and 15.4.4): the methods of Object.prototype and
   * Array.prototype.
   */
  const InheritedNames: set<Topic> := {
    "constructor", "toString", "toLocaleString", "valueOf", "hasOwnProperty",
    "isPrototypeOf", "propertyIsEnumerable",
    "concat", "join", "pop", "push", "reverse", "shift", "slice", "sort",
    "splice", "unshift", "indexOf", "lastIndexOf", "every", "some", "forEach",
    "map", "filter", "reduce", "reduceRight"
  }

  /** How a call of the source completes: normally with a value, or by throwing a TypeError. */
  datatype Completion<T> = Normal(value: T) | TypeError

  /** What `this.c[topic]` evaluates to. */
  datatype Slot<H> =
    | Own(list: seq<H>)   // the topic's own handler list (an array: truthy, even when empty)
    | Inherited           // an inherited method (a function: truthy, but not an array)
    | Undefined           // nothing: falsy

  function Lookup<H>(c: Reg<H>, topic: Topic): (v: Slot<H>)
    ensures v.Own? <==> topic in c
    ensures v.Inherited? <==> topic !in c && topic in InheritedNames
    ensures v.Own? ==> v.list == c[topic]
  {
    if topic in c then Own(c[topic])
    else if topic in InheritedNames then Inherited
    else Undefined
  }

  /**
   * `subscribe` as written. A falsy slot gets a new empty list; the handlers
   * are then pushed onto the slot's list. An inherited function is truthy,
   * so no list is created, and the first `push` on it throws; with no
   * handlers nothing happens.
   */
  function SubscribeAsWritten<H>(c: Reg<H>, topic: Topic, hs: seq<H>): (r: Completion<Reg<H>>)
    ensures r.TypeError? <==> topic !in c && topic in InheritedNames && hs != []
    ensures topic !in c && topic in InheritedNames && hs == [] ==> r == Normal(c)
  {
    match Lookup(c, topic)
    case Undefined => Normal(c[topic := [] + hs])
    case Own(t) => Normal(c[topic := t + hs])
    case Inherited => if hs == [] then Normal(c) else TypeError
  }

  /**
   * `unsubscribe` as written. For an inherited function and no handler, the
   * `delete` removes nothing and `true` is returned. With a handler, the
   * `indexOf` call on the function throws.
   */
  function UnsubscribeAsWritten<H(==)>(c: Reg<H>, topic: Topic, handler: Option<H>)
    : (r: Completion<(Reg<H>, bool)>)
    ensures r.TypeError? <==> topic !in c && topic in InheritedNames && handler.Some?
    ensures r.Normal? ==> r.value.0 == c || r.value.1
    ensures topic !in c && topic in InheritedNames && handler.None? ==> r == Normal((c, true))
  {
    match Lookup(c, topic)
    case Undefined => Normal((c, false))
    case Inherited => if handler.None? then Normal((c, true)) else TypeError
    case Own(t) =>
      if handler.None? then Normal((c - {topic}, true))
      else
        var i := IndexOf(t, handler.value);
        if i < 0 then Normal((c, false))
        else
          var t' := RemoveAt(t, i);
          if |t'| == 0 then Normal((c - {topic}, true)) else Normal((c[topic := t'], true))
  }

  /** `publish` as written: `forEach` on an inherited function throws instead of yielding `null`. */
  function PublishAsWritten<H, A, R>(c: Reg<H>, topic: Topic, args: A, call: (H, A) -> R)
    : (r: Completion<Option<seq<R>>>)
    ensures r.TypeError? <==> topic !in c && topic in InheritedNames
  {
    match Lookup(c, topic)
    case Undefined => Normal(None)
    case Inherited => TypeError
    case Own(t) => Normal(Some(Dispatch(t, args, call)))
  }

  /**
   * Apart from the inherited names, the source as written does what the
   * `Registry` functions say, on every registry.
   */
  lemma AgreesOffInheritedNames<H, A, R>(
    c: Reg<H>, topic: Topic, hs: seq<H>, handler: Option<H>, args: A, call: (H, A) -> R)
    requires topic !in InheritedNames
    ensures SubscribeAsWritten(c, topic, hs) == Normal(Subscribe(c, topic, hs))
    ensures UnsubscribeAsWritten(c, topic, handler) == Normal(Unsubscribe(c, topic, handler))
    ensures PublishAsWritten(c, topic, args, call) == Normal(Publish(c, topic, args, call))
  {
  }

  /**
   * A bus nobody has subscribed to reports that `unsubscribe("toString")`
   * removed something. The corrected `Registry.Unsubscribe` returns false.
   */
  lemma InheritedNameUnsubscribe<H>()
    ensures UnsubscribeAsWritten<H>(map[], "toString", None) == Normal((map[], true))
    ensures Unsubscribe<H>(map[], "toString", None) == (map[], false)
  {
  }

  /**
   * On a bus nobody has subscribed to, `publish("toString")` throws instead
   * of returning `null`.
   */
  lemma InheritedNamePublish<H, A, R>(args: A, call: (H, A) -> R)
    ensures PublishAsWritten<H, A, R>(map[], "toString", args, call).TypeError?
    ensures Publish<H, A, R>(map[], "toString", args, call) == None
  {
  }

  /**
   * `subscribe("toString", h)` throws, so no handler can ever be subscribed
   * to that topic. The corrected `Registry.Subscribe` registers `h`.
   */
  lemma InheritedNameSubscribe<H>(h: H)
    ensures SubscribeAsWritten<H>(map[], "toString", [h]).TypeError?
    ensures Subscribe(map[], "toString", [h]) == map["toString" := [h]]
  {
    assert "toString" in InheritedNames;
    assert Handlers(map[], "toString") + [h] == [h];
  }
}
