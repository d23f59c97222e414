/**
 * The registry of the event bus as a value, and what each operation of the
 * bus does to it.
 *
 * Every topic that has an entry maps to the ordered list of the handlers
 * subscribed to it. Handlers are values of an arbitrary type `H` compared
 * with `==`, which stands for the reference identity of JavaScript
 * functions. Invoking a handler is a pure function `call` that the caller
 * supplies; the arguments of one `publish` are one value of type `A`.
 */
module Registry {

  datatype Option<T> = None | Some(value: T)

  type Topic = string

  /** Topic name to the ordered list of its handlers. */
  type Reg<H> = map<Topic, seq<H>>

  /** The list stored under `topic`, or the empty list when the topic has no entry. */
  function Handlers<H>(c: Reg<H>, topic: Topic): seq<H>
  {
    if topic in c then c[topic] else []
  }

  /** `c` and `d` have the same entries for every topic other than `topic`. */
  ghost predicate SameElsewhere<H>(c: Reg<H>, d: Reg<H>, topic: Topic)
  {
    forall t :: t != topic ==> (t in c <==> t in d) && (t in c ==> c[t] == d[t])
  }

  /** Every topic that has an entry has at least one handler. */
  predicate NonEmpty<H>(c: Reg<H>)
  {
    forall t :: t in c ==> c[t] != []
  }

  // ---------------------------------------------------------------- subscribe

  /**
   * The registry after `subscribe(topic, ...hs)`: the entry is created
   * (empty) when it is missing, then the handlers are appended in the order
   * given. Nothing is deduplicated and no other topic changes.
   */
  function Subscribe<H>(c: Reg<H>, topic: Topic, hs: seq<H>): (d: Reg<H>)
    ensures topic in d && d[topic] == Handlers(c, topic) + hs
    ensures SameElsewhere(c, d, topic)
  {
    c[topic := Handlers(c, topic) + hs]
  }

  /** `k` copies of `h`: the handler list of `subscribe(topic, h, h, ..., h)`. */
  function Repeat<H>(h: H, k: nat): seq<H>
  {
    if k == 0 then [] else [h] + Repeat(h, k - 1)
  }

  lemma {:induction false} RepeatCount<H>(h: H, k: nat)
    ensures |Repeat(h, k)| == k && multiset(Repeat(h, k))[h] == k
  {
    if k > 0 {
      RepeatCount(h, k - 1);
    }
  }

  /** Subscribing never deduplicates: subscribing `h` k times adds k entries equal to `h`. */
  lemma {:induction false} SubscribeRepeated<H>(c: Reg<H>, topic: Topic, h: H, k: nat)
    ensures |Subscribe(c, topic, Repeat(h, k))[topic]| == |Handlers(c, topic)| + k
    ensures multiset(Subscribe(c, topic, Repeat(h, k))[topic])[h] == multiset(Handlers(c, topic))[h] + k
  {
    RepeatCount(h, k);
  }

  /** Two subscriptions in a row give the same registry as one subscription of both lists, in order. */
  lemma SubscribeTwice<H>(c: Reg<H>, topic: Topic, hs1: seq<H>, hs2: seq<H>)
    ensures Subscribe(Subscribe(c, topic, hs1), topic, hs2) == Subscribe(c, topic, hs1 + hs2)
  {
    assert Handlers(c, topic) + hs1 + hs2 == Handlers(c, topic) + (hs1 + hs2);
  }

  /**
   * Subscribing keeps every list non-empty exactly when it adds a handler or
   * the topic already has an entry: `subscribe(topic)` with no handlers on a
   * topic without an entry stores an empty list.
   */
  lemma SubscribeKeepsNonEmpty<H>(c: Reg<H>, topic: Topic, hs: seq<H>)
    requires NonEmpty(c)
    ensures NonEmpty(Subscribe(c, topic, hs)) <==> hs != [] || topic in c
  {
  }

  // -------------------------------------------------------------- unsubscribe

  /** JavaScript `indexOf`: the position of the first entry equal to `h`, or -1 when there is none. */
  function IndexOf<H(==)>(s: seq<H>, h: H): (i: int)
    ensures -1 <= i < |s|
    ensures i == -1 <==> h !in s
    ensures 0 <= i ==> s[i] == h && h !in s[..i]
  {
    if s == [] then -1
    else if s[0] == h then 0
    else
      var j := IndexOf(s[1..], h);
      assert s == [s[0]] + s[1..];
      if j == -1 then -1
      else
        assert s[..j + 1] == [s[0]] + s[1..][..j];
        j + 1
  }

  /** JavaScript `splice(i, 1)`: the list without its entry at position `i`, the others in order. */
  function RemoveAt<H>(s: seq<H>, i: nat): (r: seq<H>)
    requires i < |s|
    ensures |r| == |s| - 1
    ensures forall k :: 0 <= k < i ==> r[k] == s[k]
    ensures forall k :: i <= k < |r| ==> r[k] == s[k + 1]
  {
    s[..i] + s[i + 1..]
  }

  /**
   * The registry and the returned flag after `unsubscribe(topic, handler)`;
   * `None` stands for an omitted (falsy) handler. The flag is true exactly
   * when something was removed; nothing changes when it is false.
   */
  function Unsubscribe<H(==)>(c: Reg<H>, topic: Topic, handler: Option<H>): (r: (Reg<H>, bool))
    ensures r.1 <==> topic in c && (handler.None? || handler.value in c[topic])
    ensures !r.1 ==> r.0 == c
    ensures SameElsewhere(c, r.0, topic)
    ensures r.1 && handler.None? ==> topic !in r.0
    ensures r.1 && handler.Some? ==> (topic in r.0 <==> |c[topic]| > 1)
    ensures r.1 && handler.Some? ==> Handlers(r.0, topic) == RemoveAt(c[topic], IndexOf(c[topic], handler.value))
  {
    if topic !in c then (c, false)
    else if handler.None? then (c - {topic}, true)
    else
      var t := c[topic];
      var i := IndexOf(t, handler.value);
      if i < 0 then (c, false)
      else
        var t' := RemoveAt(t, i);
        if |t'| == 0 then (c - {topic}, true) else (c[topic := t'], true)
  }

  /**
   * Removing a handler that occurs takes out exactly its first occurrence:
   * the list loses one entry, the entries before and after it keep their
   * order, and every later duplicate of the handler survives.
   */
  lemma UnsubscribeFirstOccurrence<H>(c: Reg<H>, topic: Topic, h: H)
    requires topic in c && h in c[topic]
    ensures var s, s' := c[topic], Handlers(Unsubscribe(c, topic, Some(h)).0, topic);
      && |s'| == |s| - 1
      && (exists i :: 0 <= i < |s| && s[i] == h && h !in s[..i] && s' == s[..i] + s[i + 1..])
      && multiset(s') == multiset(s) - multiset{h}
      && multiset(s')[h] == multiset(s)[h] - 1
  {
    var s := c[topic];
    var i := IndexOf(s, h);
    var s' := Handlers(Unsubscribe(c, topic, Some(h)).0, topic);
    assert s' == s[..i] + s[i + 1..];
    assert s == s[..i] + [h] + s[i + 1..];
    assert multiset(s) == multiset(s[..i]) + multiset{h} + multiset(s[i + 1..]);
  }

  /**
   * `unsubscribe` never leaves an emptied list behind: every empty list after
   * it was already stored, empty, before it. So it keeps every list non-empty.
   */
  lemma UnsubscribeKeepsNonEmpty<H>(c: Reg<H>, topic: Topic, handler: Option<H>)
    ensures var d := Unsubscribe(c, topic, handler).0;
      forall t :: t in d && d[t] == [] ==> t in c && c[t] == []
    ensures NonEmpty(c) ==> NonEmpty(Unsubscribe(c, topic, handler).0)
  {
  }

  // ------------------------------------------------------------------ publish

  /** The results of calling every handler of `hs` on `args`, in list order. */
  function Dispatch<H, A, R>(hs: seq<H>, args: A, call: (H, A) -> R): (rs: seq<R>)
    ensures |rs| == |hs|
    ensures forall i :: 0 <= i < |hs| ==> rs[i] == call(hs[i], args)
  {
    if hs == [] then [] else [call(hs[0], args)] + Dispatch(hs[1..], args, call)
  }

  /**
   * The value of `publish(topic, ...args)`: `None` (JavaScript `null`) when
   * the topic has no entry, otherwise one result per stored handler, the
   * i-th from the i-th handler.
   */
  function Publish<H, A, R>(c: Reg<H>, topic: Topic, args: A, call: (H, A) -> R): (r: Option<seq<R>>)
    ensures r.None? <==> topic !in c
    ensures r.Some? ==> |r.value| == |c[topic]|
    ensures r.Some? ==> forall i :: 0 <= i < |r.value| ==> r.value[i] == call(c[topic][i], args)
  {
    if topic !in c then None else Some(Dispatch(c[topic], args, call))
  }

  /** Handlers subscribed later are called later: their results follow those of the earlier ones. */
  lemma DispatchAppend<H, A, R>(hs1: seq<H>, hs2: seq<H>, args: A, call: (H, A) -> R)
    ensures Dispatch(hs1 + hs2, args, call) == Dispatch(hs1, args, call) + Dispatch(hs2, args, call)
  {
  }

  /** Publishing after a subscription gives the earlier results followed by the new handlers' results. */
  lemma PublishAfterSubscribe<H, A, R>(c: Reg<H>, topic: Topic, hs: seq<H>, args: A, call: (H, A) -> R)
    ensures Publish(Subscribe(c, topic, hs), topic, args, call)
         == Some(Dispatch(Handlers(c, topic), args, call) + Dispatch(hs, args, call))
  {
    DispatchAppend(Handlers(c, topic), hs, args, call);
  }

  /** `publish` is answered by `null` once `unsubscribe(topic)` has removed the whole topic. */
  lemma PublishAfterUnsubscribeAll<H, A, R>(c: Reg<H>, topic: Topic, args: A, call: (H, A) -> R)
    requires topic in c
    ensures Unsubscribe(c, topic, None).1
    ensures Publish(Unsubscribe(c, topic, None).0, topic, args, call) == None
  {
  }

  /**
   * Unsubscribing the only handler of a topic removes the whole topic, as
   * `unsubscribe(topic)` does, and reports the removal.
   */
  lemma LastHandlerRemovesTopic<H>(c: Reg<H>, topic: Topic, h: H)
    requires topic in c && c[topic] == [h]
    ensures Unsubscribe(c, topic, Some(h)) == (c - {topic}, true)
  {
  }

  /**
   * A removed topic is not poisoned: on a registry without an entry for the
   * topic, however it was removed (all at once, or its last handler), a
   * subscription recreates it with exactly the new handlers.
   */
  lemma ResubscribeAfterRemoval<H, A, R>(c: Reg<H>, topic: Topic, hs: seq<H>, args: A, call: (H, A) -> R)
    requires topic !in c
    ensures Subscribe(c, topic, hs)[topic] == hs
    ensures Publish(Subscribe(c, topic, hs), topic, args, call) == Some(Dispatch(hs, args, call))
  {
  }

  /**
   * A handler registered twice keeps one registration after one
   * `unsubscribe` of it, and is still called by the next `publish`.
   */
  lemma DuplicateSurvivesUnsubscribe<H, A, R>(c: Reg<H>, topic: Topic, h: H, args: A, call: (H, A) -> R)
    requires topic in c && multiset(c[topic])[h] >= 2
    ensures var (d, removed) := Unsubscribe(c, topic, Some(h));
      && removed
      && topic in d && h in d[topic]
      && call(h, args) in Publish(d, topic, args, call).value
  {
    UnsubscribeFirstOccurrence(c, topic, h);
    var d := Unsubscribe(c, topic, Some(h)).0;
    var s' := Handlers(d, topic);
    assert multiset(s')[h] >= 1;
    assert h in s';
    assert topic in d;
    var k := IndexOf(s', h);
    assert Publish(d, topic, args, call).value[k] == call(h, args);
  }

  /**
   * The entry that `subscribe(topic)` with no handlers creates is seen by
   * `publish` as a topic with subscribers: it returns an empty list, not `None`.
   */
  lemma EmptySubscribePublishesEmptyList<H, A, R>(c: Reg<H>, topic: Topic, args: A, call: (H, A) -> R)
    requires topic !in c
    ensures !NonEmpty(Subscribe(c, topic, []))
    ensures Publish(Subscribe(c, topic, []), topic, args, call) == Some([])
  {
  }
}
