# Events: a topic-based publish/subscribe bus

This is a Dafny model of the `Events` class of Ionic's core package
(`packages/core/src/global/events.ts`). It is an in-process event bus. A
registry maps each topic name to the ordered list of handlers subscribed to
it, and three operations use it:

- `subscribe(topic, ...handlers)` creates the topic's list when it is missing
  and appends the handlers in the order given. It never deduplicates.
- `unsubscribe(topic, handler?)` returns `false` for a topic with no entry.
  With no handler it deletes the whole topic and returns `true`. With a
  handler it removes the first entry equal to it and deletes the topic once
  its list is empty. It returns `false` when the handler is not in the list.
- `publish(topic, ...args)` returns `null` for a topic with no entry.
  Otherwise it calls every handler in list order with the same arguments and
  returns their results in that order.

Layout:

- `registry.dfy`, module `Registry`: the registry as a value
  (`map<Topic, seq<H>>`) and one function per operation. It also holds the
  lemmas that state what the operations promise, alone and in sequence.
- `events.dfy`, module `EventBus`: the class `Events` with the field `c`.
  `Subscribe` (a loop of appends) and `Unsubscribe` update `c` in place.
  `Publish` collects the results in a loop. Each method is proved to match
  the `Registry` function of the same name.
- `jsregistry.dfy`, module `JsRegistry`: the same operations as the source
  runs them on its actual storage, a JavaScript array used as a dictionary.
  The differences are listed under "Findings".

Handlers are values of a type parameter `H` compared with `==`, which stands
for JavaScript reference identity. A handler's invocation is a pure function
`call: (H, A) -> R` passed to `Publish`. The variadic arguments of one
`publish` are a single value of type `A`. An omitted or falsy `handler`
argument of `unsubscribe` is `None`. JavaScript functions are always truthy,
so every handler that is passed is `Some(h)`.

Two consequences of JavaScript truthiness are modelled as the code has them,
not as one might expect from the class's purpose:

- `subscribe(topic)` with no handlers, on a topic with no entry, stores an
  empty list (`events.ts:12-14`). The emptied-topic cleanup therefore does
  not make "every stored list is non-empty" hold unconditionally.
  `Registry.SubscribeKeepsNonEmpty` states exactly when it is kept.
- An empty array is truthy, so a topic with an empty list counts as present.
  After an empty `subscribe`, `publish` returns `[]` rather than `null`
  (`Registry.EmptySubscribePublishesEmptyList`), and `unsubscribe(topic)`
  returns `true`.

## Model

| member | source | states |
|---|---|---|
| `Registry.Subscribe` | packages/core/src/global/events.ts:11-18 | the topic is present afterwards and its list is the old list (or the empty list) followed by the new handlers in the order given; every other topic keeps its entry or absence |
| `Registry.SubscribeRepeated` | packages/core/src/global/events.ts:15-17 | no deduplication: subscribing a handler k times lengthens the list by k and adds k entries equal to it |
| `Registry.SubscribeTwice` | packages/core/src/global/events.ts:11-18 | two subscriptions in a row equal one subscription of both handler lists concatenated, so order is kept across calls |
| `Registry.SubscribeKeepsNonEmpty` | packages/core/src/global/events.ts:12-17 | from a registry whose lists are all non-empty, the lists stay non-empty after a subscription if and only if it adds a handler or the topic already had an entry |
| `Registry.IndexOf` | packages/core/src/global/events.ts:42 | `indexOf` yields -1 exactly when the handler is absent, and otherwise a position holding the handler with no equal entry before it |
| `Registry.RemoveAt` | packages/core/src/global/events.ts:49 | `splice(i, 1)` leaves one entry fewer: the entries before `i` in place and the ones after it shifted down by one |
| `Registry.Unsubscribe` | packages/core/src/global/events.ts:28-57 | the result is true exactly when the topic has an entry and either no handler is given or the handler is in its list; on false nothing changes; other topics never change; without a handler the topic is deleted; with one, the topic stays only if more than one entry was stored, and its list loses the entry at the handler's first position |
| `Registry.UnsubscribeFirstOccurrence` | packages/core/src/global/events.ts:42-49 | removing a present handler takes out exactly its first occurrence: the list is one shorter, it equals the old list minus that position, one copy of the handler leaves the multiset, and later duplicates survive |
| `Registry.UnsubscribeKeepsNonEmpty` | packages/core/src/global/events.ts:51-54 | after `unsubscribe` every empty list was already stored, empty, before it; so a registry whose lists are all non-empty stays so |
| `Registry.Dispatch` | packages/core/src/global/events.ts:71-74 | one result per handler, the i-th being the i-th handler called on the arguments |
| `Registry.Publish` | packages/core/src/global/events.ts:65-76 | the result is `None` (`null`) exactly when the topic has no entry; otherwise it has as many results as the topic has handlers, the i-th from the i-th handler on the same arguments |
| `Registry.DispatchAppend` | packages/core/src/global/events.ts:72-74 | the results of a concatenated handler list are the results of the first part followed by those of the second |
| `Registry.PublishAfterSubscribe` | packages/core/src/global/events.ts:65-75 | publishing after a subscription returns the results of the previously stored handlers followed by those of the newly subscribed ones |
| `Registry.PublishAfterUnsubscribeAll` | packages/core/src/global/events.ts:35-38 | `unsubscribe(topic)` on a present topic returns true, and a `publish` on that topic afterwards returns `null` |
| `Registry.LastHandlerRemovesTopic` | packages/core/src/global/events.ts:49-56 | unsubscribing the only handler of a topic deletes the topic and returns true, just as removing the whole topic does |
| `Registry.ResubscribeAfterRemoval` | packages/core/src/global/events.ts:12-17 | on a registry without the topic, however it was removed, subscribing recreates it holding exactly the new handlers, and publishing returns exactly their results |
| `Registry.DuplicateSurvivesUnsubscribe` | packages/core/src/global/events.ts:42-56 | when a handler is registered at least twice, one `unsubscribe` of it returns true, the topic and one registration of the handler remain, and the next `publish` still includes its result |
| `Registry.EmptySubscribePublishesEmptyList` | packages/core/src/global/events.ts:12-14 | `subscribe(topic)` with no handlers on an absent topic leaves an empty stored list, after which `publish` returns an empty list, not `null` |
| `EventBus.Events.constructor` | packages/core/src/global/events.ts:3 | a new bus has an empty registry |
| `EventBus.Events.Subscribe` | packages/core/src/global/events.ts:11-18 | the new registry is `Registry.Subscribe` of the old one: the topic's list is the old list followed by the handlers, other topics unchanged; non-emptiness is kept exactly when a handler is added or the topic existed |
| `EventBus.Events.Unsubscribe` | packages/core/src/global/events.ts:28-57 | the new registry and the result are `Registry.Unsubscribe` of the old registry: true exactly when something was removed, nothing changed on false, other topics unchanged, non-emptiness kept |
| `EventBus.Events.Publish` | packages/core/src/global/events.ts:65-76 | returns `None` exactly when the topic has no entry, otherwise the i-th handler's result at position i for every handler, equal to `Registry.Publish`; the registry is not modified |
| `JsRegistry.Lookup` | packages/core/src/global/events.ts:3 | reading `c[topic]` finds the topic's own list, equal to the stored list, exactly when it has an entry, and an inherited method exactly when it has none and names a method every array inherits |
| `JsRegistry.SubscribeAsWritten` | packages/core/src/global/events.ts:11-18 | the source's `subscribe` throws exactly when the topic has no entry, names an inherited method, and at least one handler is given; with no handlers on such a name it changes nothing |
| `JsRegistry.UnsubscribeAsWritten` | packages/core/src/global/events.ts:28-57 | the source's `unsubscribe` throws exactly when the topic has no entry, names an inherited method, and a handler is given; on any registry, without a handler on such a name it returns true and changes nothing; when it returns false nothing changed |
| `JsRegistry.PublishAsWritten` | packages/core/src/global/events.ts:65-76 | the source's `publish` throws exactly when the topic has no entry and names an inherited method |
| `JsRegistry.AgreesOffInheritedNames` | packages/core/src/global/events.ts:2-77 | for every topic that is not an inherited method name, the source's three operations behave as `Registry.Subscribe`, `Registry.Unsubscribe` and `Registry.Publish` |
| `JsRegistry.InheritedNameUnsubscribe` | packages/core/src/global/events.ts:29-38 | on an empty bus, `unsubscribe("toString")` as written returns true, where the corrected operation returns false |
| `JsRegistry.InheritedNamePublish` | packages/core/src/global/events.ts:66-73 | on an empty bus, `publish("toString")` as written throws, where the corrected operation returns `null` |
| `JsRegistry.InheritedNameSubscribe` | packages/core/src/global/events.ts:12-16 | `subscribe("toString", h)` as written throws, where the corrected operation registers `h` |

## Left out

- `setupEvents` (`events.ts:80-101`): it wires browser events (`online`,
  `offline`, `orientationchange`, `statusTap`) to `publish` and scrolls a
  scroll element to its top. This is DOM and UI glue with no state of its own.
- Handlers that call back into the bus during `publish`. The source iterates
  the live array (`events.ts:72`), so a handler that subscribes or
  unsubscribes could change which later handlers run. Handlers here are pure
  and cannot reach the bus, so the live list and a snapshot are the same.
- Exceptions thrown by handlers. In the source an exception stops `publish`
  at once and skips the remaining handlers. Here `call` is total.
- The variadic argument list and the `Function` type. The arguments of one
  `publish` are a single opaque value, and handlers are an opaque type with
  equality.
- In-place aliasing of the per-topic arrays. `unsubscribe` splices the array
  it read out of `c`. The model replaces the stored list with the new value,
  which has the same effect because those arrays never leave the object.
- The topic names `length` and `__proto__`. On the array `c` they behave in
  yet other ways: `length` is an own property holding 0, and `__proto__`
  yields `Array.prototype`, which is itself an array. `JsRegistry` models only
  the inherited method names of ECMAScript 5.1. Later editions add more such
  names.
- `Registry.RepeatCount` is a helper: `k` copies of a handler form a list of
  length `k` holding it `k` times.

## Findings

| source | as written | input that shows it | evidently intended | confidence | as-written member | corrected member |
|---|---|---|---|---|---|---|
| packages/core/src/global/events.ts:3 | `c` is an array, so `this.c["toString"]` is the inherited `toString` function, which is truthy; `unsubscribe` then takes the "remove all handlers" branch, whose `delete` removes nothing, and returns `true` | `unsubscribe("toString")` on a new bus | `false`, since no handler was removed | high (not executed) | `JsRegistry.InheritedNameUnsubscribe` | `Registry.Unsubscribe` |
| packages/core/src/global/events.ts:66-73 | the inherited function passes the `!t` test and `t.forEach` is not a function, so `publish` throws a TypeError | `publish("toString")` on a new bus | `null`, since nobody subscribed | high (not executed) | `JsRegistry.InheritedNamePublish` | `Registry.Publish` |
| packages/core/src/global/events.ts:12-16 | the inherited function passes the `!this.c[topic]` test, so no list is created, and `push` is not a function on it, so `subscribe` throws a TypeError | `subscribe("toString", h)` | `h` is registered under `"toString"` | high (not executed) | `JsRegistry.InheritedNameSubscribe` | `Registry.Subscribe` |
