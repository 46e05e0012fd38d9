# PSNotificationCenter in Dafny

PSNotificationCenter is an in-process publish/subscribe registry for Objective-C. Observers register for a protocol, optionally with a filter object. A sender then sends a block on that protocol with an optional filter. The block runs on every registered observer whose filter lets the send through. A filter is any object that adopts the `PSNotificationFilter` protocol and compares with `isMatching:`. The library gives five Foundation and Core Data classes a category that adopts it: NSString, NSArray, NSDictionary, NSManagedObjectID and NSManagedObject. Any other NSObject class may adopt it too.

The model has three modules:

- `Filters` (`filter.dfy`): a filter is an abstract tagged value. The tag is its concrete class: one of the five category classes, or `OtherClass(name)` for any other adopter. An instance of a subclass, such as a Core Data entity `Person : NSManagedObject`, gets its own `OtherClass("Person")` tag, because the comparison is by concrete class (line 39). The private members of a class cluster, such as the subclasses behind NSString, NSArray and NSDictionary, are taken to carry their public class's tag. The value is a canonical encoding of what that class's equality compares. `IsMatching` holds only when the classes agree and the values are equal.
- `Registry` (`registry.dfy`): the center's table as a value. It maps each protocol key to an ordered list of `(observer, optional filter)` entries. It defines the pure meaning of the three operations: `WithObserver`, `WithoutObserver` and `Delivery`. It has the invariant `WellFormed`: one entry per observer in each list, and every observer conforms to its list's protocol. The lemmas about these functions are here.
- `Center` (`center.dfy`): `NotificationCenter`, a class whose `observers` field the methods update in place.
  - `SetObserver` scans for the observer and then either replaces its filter or appends a new entry.
  - `RemoveObserver` rebuilds the list without the observer.
  - `Send` walks the list and returns the observers the block would run on.
  - Each method's `ensures` ties its result or its new state to the `Registry` function. `PingCenter` builds a center with three registered observers. `PingScenario` and `ReRegisterScenario` then show a client reasoning from these contracts alone.

Some things in the source are replaced by parameters or values:

- An observer is a value `Observer(id, protocols)`: its identity plus the set of protocols its class conforms to. This replaces the runtime's `conformsToProtocol:` check. The model takes each object's conformance as fixed while it is registered, so one object is always one and the same `Observer` value. On that assumption the model compares whole values, as the source compares pointers. Two values with the same `id` but different protocol sets count as two different observers.
- A protocol is a string key.
- A block is an opaque handle, passed as `Option<Block>` so that a nil block can be expressed.
- There is no nil observer or nil protocol, because the types exclude them, just as the header requires of callers.

The model follows the contract stated in the doc comments of `PSNotificationCenter.h`; the implementation file is not modelled. The header says that re-registering an observer "will just replace the filter" (line 61). So the model keeps at most one entry per (observer, protocol). That entry keeps its position in the list and carries the latest filter.

## Model

| member | source | states |
|---|---|---|
| Filters.IsMatching | PSNotificationCenter/PSNotificationCenter.h:37-42 | filters of different classes never match; filters match exactly when they have the same class and equal values |
| Registry.Observers | PSNotificationCenter/PSNotificationCenter.h:79 | the observers of a protocol's list, one per entry, in list order |
| Registry.Replaced | PSNotificationCenter/PSNotificationCenter.h:59-61 | the list after setObserver: it holds the observer with the new filter, and it is as long as before, or one longer |
| Registry.ReplacedAt | PSNotificationCenter/PSNotificationCenter.h:61 | re-registering an observer overwrites the filter of its existing entry at the same position |
| Registry.ReplacedAbsent | PSNotificationCenter/PSNotificationCenter.h:59 | registering an observer that has no entry appends one at the end of the list |
| Registry.ReplacedEntry | PSNotificationCenter/PSNotificationCenter.h:59-61 | after registering, the list has one entry per observer, exactly one entry for the observer with the new filter, every other entry in its place, and it grows only if the observer was new |
| Registry.WithObserver | PSNotificationCenter/PSNotificationCenter.h:59 | registering for one protocol creates its list and leaves every other protocol's list unchanged |
| Registry.WithObserverWellFormed | PSNotificationCenter/PSNotificationCenter.h:60 | registering a conforming observer preserves the invariant: one entry per observer, and all observers conform |
| Registry.SetObserverRegistersOnce | PSNotificationCenter/PSNotificationCenter.h:59-66 | after setObserver the protocol's list holds exactly one entry for the observer, carrying the given filter, and no duplicate is added |
| Registry.ReplacedTwice | PSNotificationCenter/PSNotificationCenter.h:61 | registering twice in a row equals registering once with the second filter |
| Registry.SetObserverTwice | PSNotificationCenter/PSNotificationCenter.h:61 | on the whole table, the second setObserver of the same observer and protocol only replaces the filter |
| Registry.Without | PSNotificationCenter/PSNotificationCenter.h:79 | the list after removeObserver: no entry of the observer is left, and the list does not grow |
| Registry.WithoutKeepsOrder | PSNotificationCenter/PSNotificationCenter.h:79 | removal keeps the surviving entries in their list order |
| Registry.WithoutMembers | PSNotificationCenter/PSNotificationCenter.h:79 | an entry survives removeObserver exactly when it belongs to another observer |
| Registry.WithoutAbsent | PSNotificationCenter/PSNotificationCenter.h:80 | removing an observer without an entry leaves the list as it was |
| Registry.WithoutNoDuplicates | PSNotificationCenter/PSNotificationCenter.h:79 | removal keeps one entry per observer |
| Registry.WithoutObserver | PSNotificationCenter/PSNotificationCenter.h:79-84 | removal keeps the set of protocols and leaves every other protocol's list unchanged |
| Registry.WithoutObserverWellFormed | PSNotificationCenter/PSNotificationCenter.h:79-84 | removal preserves the table invariant |
| Registry.RemoveAbsentIsNoOp | PSNotificationCenter/PSNotificationCenter.h:80 | removeObserver for an observer not registered for the protocol leaves the whole table unchanged |
| Registry.RemovedReceivesNothing | PSNotificationCenter/PSNotificationCenter.h:79-84 | after removeObserver the observer receives no send on that protocol, whatever the filter |
| Registry.UnregisteredReceivesNothing | PSNotificationCenter/PSNotificationCenter.h:95 | an observer without an entry for a protocol (for example, one registered only for another protocol) receives no send on it |
| Registry.Delivers | PSNotificationCenter/PSNotificationCenter.h:64 | an entry receives a send when its own filter or the send filter is nil; when both are filters, delivery implies the same class and the same value |
| Registry.Recipients | PSNotificationCenter/PSNotificationCenter.h:95-97 | the observers of a list that a send with a given filter reaches: at most one per entry, and every entry's observer when the send filter is nil |
| Registry.RecipientsKeepOrder | PSNotificationCenter/PSNotificationCenter.h:95-97 | the recipients of a send are in list order: a subsequence of the list's observers |
| Registry.RecipientsExact | PSNotificationCenter/PSNotificationCenter.h:95-97 | an observer is a recipient exactly when one of its entries has a nil filter, the send filter is nil, or its filter isMatching: the send filter |
| Registry.RecipientsOnce | PSNotificationCenter/PSNotificationCenter.h:97 | a list with one entry per observer yields each recipient at most once, so the block runs at most once per observer |
| Registry.BroadcastReachesAll | PSNotificationCenter/PSNotificationCenter.h:100 | a send without a filter reaches every entry's observer, in list order |
| Registry.WildcardReceivesAll | PSNotificationCenter/PSNotificationCenter.h:64 | an entry with a nil filter is a recipient of every send, whatever the send filter |
| Registry.Delivery | PSNotificationCenter/PSNotificationCenter.h:94-102 | whom send:protocol:filter: runs the block on: nobody for a nil block (line 98), at most one per entry, and only observers registered for the protocol |
| Registry.DeliveryRule | PSNotificationCenter/PSNotificationCenter.h:94-102 | with a block, a registered observer receives the send if and only if its filter is nil, the send filter is nil, or its filter matches the send filter |
| Registry.BroadcastDelivery | PSNotificationCenter/PSNotificationCenter.h:100 | send with a nil filter delivers to every observer registered for the protocol |
| Registry.WildcardDelivery | PSNotificationCenter/PSNotificationCenter.h:64 | an observer registered with a nil filter receives every send on the protocol |
| Registry.NilBlockDeliversNothing | PSNotificationCenter/PSNotificationCenter.h:98 | a nil block reaches nobody |
| Registry.DeliveredConform | PSNotificationCenter/PSNotificationCenter.h:96 | in a well-formed table, every receiver of a send on a protocol conforms to it |
| Registry.DeliveredOnce | PSNotificationCenter/PSNotificationCenter.h:97 | in a well-formed table, no observer occurs twice among the receivers of a send |
| Registry.OtherProtocolsUnaffected | PSNotificationCenter/PSNotificationCenter.h:95-102 | registering or removing on one protocol does not change who receives a send on any other protocol |
| Center.NotificationCenter.constructor | PSNotificationCenter/PSNotificationCenter.h:51 | a new center has no registrations and satisfies the invariant |
| Center.NotificationCenter.SetObserver | PSNotificationCenter/PSNotificationCenter.h:58-66 | requires conformance; keeps the invariant; the new table is the old one with the observer registered or its filter replaced |
| Center.NotificationCenter.RemoveObserver | PSNotificationCenter/PSNotificationCenter.h:78-84 | keeps the invariant; the new table is the old one without the observer's entry for the protocol |
| Center.NotificationCenter.Send | PSNotificationCenter/PSNotificationCenter.h:94-102 | returns exactly the observers the block runs on, in list order, each conforming to the protocol; changes nothing |

## Left out

- `+defaultCenter` (line 56): a lazily created, thread-safe singleton. The model constructs centers explicitly.
- The class-method forwarders `+setObserver:protocol:filter:`, `+removeObserver:protocol:` and `+send:protocol:filter:` (lines 76, 92, 112): each only delegates to the default center.
- Running the block (line 28): it is opaque, so `Send` returns the observers it would run on. Re-entrant registration or removal from inside a block is not modelled.
- Filters.IsMatching: every adopter, the five categories and any other class alike, is assumed to match by "same class and equal value". That relation is symmetric, so whether a send asks the registered filter or the sent one to run `isMatching:` (line 95) is not observable here. The model makes the registered filter the receiver (`Registry.Delivers`). An adopter whose `isMatching:` is not symmetric, or not an equality, is outside the model.
- The concrete equality of each filter category (lines 118-136) is Foundation and Core Data behaviour whose bodies are not in the header. Each category is modelled as "same class and equal abstract value".
- `conformsToProtocol:` reflection (line 60) is replaced by the protocol set carried by each `Observer`. A non-conforming registration is a precondition violation, not a runtime assertion failure.
- Object lifetime and retention of observers, and concurrent access from several threads, are not modelled.
- The implementation file is not modelled. The model follows the header's "just replace the filter" rule (line 61).
