# Cyphal subscriber registry and dispatch, modelled in Dafny

This project models the subscriber layer of ArduPilot's Cyphal driver
(`libraries/AP_CYPHAL/AP_CYPHAL_subscriber.h`). The layer implements the
node services of section 5.3 of the Cyphal Specification v1.0:
`uavcan.node.Heartbeat.1.0`, `uavcan.node.GetInfo.1.0` and
`uavcan.node.ExecuteCommand`. It uses the message, request and response
transfer kinds of section 4.1 of that specification.

The model covers what the header declares: the state layout, the
constructors and the response template. The header only declares
`add_subscriber`, `process_all`, `subscribe` and `handler`; their bodies
are modelled by assumption. Registration appends while a slot is free,
routing compares port identifiers, `subscribe` asks for the subscriber's
own port, and `handler` emits the transfers `Subscribers.Handle` gives.
The assumptions about `handler` are listed under "## Left out".

- `cyphal_types.dfy` (module `CyphalTypes`) defines the transport vocabulary.
  Port identifiers are 16-bit values (`CanardPortID`). It also defines the
  eight priorities, the three transfer kinds, the response metadata, the
  inbound and outbound transfers with opaque `seq<bv8>` payloads, and the
  three fixed service ports.
- `subscribers.dfy` (module `Subscribers`) models the closed subscriber
  hierarchy as one datatype.
  - Variants: Heartbeat, GetInfo, ExecuteCommand, and a generic message or
    request subscriber standing for driver-specific handlers.
  - Members: the constructors, `get_port_id`, `subscribe`, `push_response`
    and `handler`.
  - `Subscriber.Valid` is the invariant every constructor establishes and
    no operation changes. A request subscriber's stored response template
    is (Nominal, Response, own port), and a built-in handler sits on its
    fixed port.
- `registry.dfy` (module `SubscriberRegistry`) models `CyphalSubscriberManager`
  as a value: an occupancy counter plus a 17-slot array.
  - `AddSubscriber` models `add_subscriber`. `AddAll` is a run of
    start-of-day registrations.
  - `ProcessAll` models `process_all` as a loop over the occupied prefix.
    It returns the slots whose handler it ran and the responses those
    handlers pushed.
- `manager.dfy` (module `Manager`) holds the same manager as a class with a
  real fixed-size array and counter. Its constructor and `AddSubscriber`
  are proved to produce exactly the value-level model's state, and its
  `ProcessAll` returns exactly the value-level model's invoked slots and
  responses. `ProcessAll` there has no `modifies` clause, so
  routing provably leaves the registry untouched.

Routing. The header does not show whether `process_all` stops at the first
match or runs every match. The model runs every handler whose port
identifier equals the transfer's (`Routes`). Under both readings, only
matching handlers run. `UniqueRoutingIsFirstMatch` proves that, with unique
port identifiers, the two readings agree: at most one handler runs, and it
is the first match (`FirstMatch`).

The comment on `max_number_of_subscribers` sizes the array as five default
services plus four ESCs of three ports each. The header declares three
built-in handlers (Heartbeat, GetInfo, ExecuteCommand). It also includes
the `uavcan.register.Access` and `uavcan.register.List` types, which are
probably the other two defaults and are declared elsewhere. The model
keeps the capacity of 17 and models the three declared handlers.

The routing rule compares port identifiers only: `ProcessAll` ensures
`Routes` on `t.portId` alone, so the transfer kind plays no part, and
`RoutingDependsOnlyOnPort` proves that `Routes` has only one solution for a
given port.
Cyphal, however, keeps subject identifiers and service identifiers in
separate namespaces. `MessageOnServicePortReachesGetInfo` shows what follows
after the built-in setup: a message on subject 430 would be handed to the
GetInfo handler, which would answer it. Whether the hidden `process_all`
body also checks the kind cannot be seen, so this is not reported as a
defect.

## Model

| member | source | states |
|---|---|---|
| Subscribers.NewMessageSubscriber | libraries/AP_CYPHAL/AP_CYPHAL_subscriber.h:54-60 | The base constructor stores the port id, and `get_port_id` returns exactly that value. The subscriber is message-class and has no response template. |
| Subscribers.NewRequestSubscriber | libraries/AP_CYPHAL/AP_CYPHAL_subscriber.h:80-89 | The request-subscriber constructor leaves a template with priority Nominal, kind Response and port equal to the subscriber's own port id. `get_port_id` returns the constructor's port. |
| Subscribers.NewHeartbeat | libraries/AP_CYPHAL/AP_CYPHAL_subscriber.h:96-102 | The Heartbeat handler is a plain message-class subscriber with no template, on the fixed Heartbeat subject. |
| Subscribers.NewGetInfo | libraries/AP_CYPHAL/AP_CYPHAL_subscriber.h:108-117 | The GetInfo handler is a request subscriber on the fixed GetInfo service. Its template answers on that port. |
| Subscribers.NewExecuteCommand | libraries/AP_CYPHAL/AP_CYPHAL_subscriber.h:123-127 | The ExecuteCommand handler is a request subscriber whose port id is always the fixed ExecuteCommand port. Its template answers on that port. |
| Subscribers.Subscribe | libraries/AP_CYPHAL/AP_CYPHAL_subscriber.h:61-65 | `subscribe` asks the transport for message transfers exactly when the subscriber is message-class, and for request transfers exactly when it is request-class, always on the subscriber's own port id. |
| Subscribers.PushResponse | libraries/AP_CYPHAL/AP_CYPHAL_subscriber.h:83-89 | Every response pushed through a request subscriber carries priority Nominal, kind Response and the subscriber's own port. Its payload is the first `buf_size` bytes of the buffer. |
| Subscribers.Handle | libraries/AP_CYPHAL/AP_CYPHAL_subscriber.h:62 | A handler emits no transfer for a message-class subscriber. A request-class subscriber emits exactly one response under its template. GetInfo answers with its cached node status. |
| Subscribers.GetInfoIsPureQuery | libraries/AP_CYPHAL/AP_CYPHAL_subscriber.h:108-117 | GetInfo gives the same answer to every request, whatever the request's kind, port or payload. |
| Subscribers.BuiltinHandlers | libraries/AP_CYPHAL/AP_CYPHAL_subscriber.h:96-132 | Heartbeat subscribes on messages, while GetInfo and ExecuteCommand subscribe on requests, each on its own fixed port. The three fixed ports are pairwise distinct. |
| SubscriberRegistry.NewRegistry | libraries/AP_CYPHAL/AP_CYPHAL_subscriber.h:38-46 | A freshly constructed manager satisfies the registry invariant and holds zero subscribers. |
| SubscriberRegistry.AddSubscriber | libraries/AP_CYPHAL/AP_CYPHAL_subscriber.h:42-46 | The call returns true iff the count is below 17. On failure, the count and every slot are unchanged. On success, the subscriber lands in slot `count`, the count grows by one, earlier slots are untouched, and the registered list gains the subscriber at its end. The count never exceeds 17. |
| SubscriberRegistry.AddAllFillsInOrder | libraries/AP_CYPHAL/AP_CYPHAL_subscriber.h:42-46 | For any run of registrations, the registered list becomes the old list followed by as many of the new subscribers, in call order, as there were free slots. |
| SubscriberRegistry.AddAllAcceptsWhileRoom | libraries/AP_CYPHAL/AP_CYPHAL_subscriber.h:42-44 | In a run of registrations, the k-th call returns true exactly when `count + k < 17`. |
| SubscriberRegistry.AddAllFull | libraries/AP_CYPHAL/AP_CYPHAL_subscriber.h:42-44 | On a full manager, every further registration returns false and changes nothing. |
| SubscriberRegistry.ProcessAll | libraries/AP_CYPHAL/AP_CYPHAL_subscriber.h:41-46 | `process_all` runs, in slot order, exactly the registered handlers whose `get_port_id()` equals the transfer's port. A transfer matching none runs nothing and emits nothing. Every emitted response has priority Nominal, kind Response and the transfer's port. |
| SubscriberRegistry.RoutedOutcome | libraries/AP_CYPHAL/AP_CYPHAL_subscriber.h:41 | For any exact routing of a transfer, nothing runs iff no registered subscriber listens on its port, and then nothing is emitted. Everything emitted is a Nominal-priority response on the transfer's port. |
| Manager.SubscriberManager.constructor | libraries/AP_CYPHAL/AP_CYPHAL_subscriber.h:38-46 | The constructed object reads as the fresh value-level registry: zero subscribers, every slot empty. Its slot array is newly allocated, so it belongs to this manager alone. |
| Manager.SubscriberManager.AddSubscriber | libraries/AP_CYPHAL/AP_CYPHAL_subscriber.h:42-46 | The array-and-counter update leaves exactly the state `SubscriberRegistry.AddSubscriber` computes from the old state, and returns its flag: true iff a slot was free. |
| Manager.SubscriberManager.ProcessAll | libraries/AP_CYPHAL/AP_CYPHAL_subscriber.h:41-46 | On the array-and-counter object, `process_all` runs exactly the matching slots in order, and the responses are exactly those the invoked handlers emit, in that order. It emits only responses on the transfer's port, and nothing when no slot matches. It has no write access to the manager. |
| SubscriberRegistry.EmittedUnderTemplate | libraries/AP_CYPHAL/AP_CYPHAL_subscriber.h:83-89 | Handlers matched to port p only ever emit responses under the template of p. |
| SubscriberRegistry.FirstMatch | libraries/AP_CYPHAL/AP_CYPHAL_subscriber.h:41 | Reference "first match" routing: returns the lowest occupied slot listening on the port, with no matching slot before it, or nothing when no slot matches. |
| SubscriberRegistry.UniqueRoutingIsFirstMatch | libraries/AP_CYPHAL/AP_CYPHAL_subscriber.h:41 | With unique port ids, at most one handler runs, and it is the first match. The "every match" and "first match" readings agree. |
| SubscriberRegistry.RoutingDependsOnlyOnPort | libraries/AP_CYPHAL/AP_CYPHAL_subscriber.h:41 | Two routings of transfers on the same port invoke the same slots in the same order, whatever their kinds or payloads. |
| SubscriberRegistry.OneResponsePerRequest | libraries/AP_CYPHAL/AP_CYPHAL_subscriber.h:41-42 | With unique port ids, a transfer for a registered request subscriber produces exactly one response under the template. One for a message subscriber produces none. |
| SubscriberRegistry.DeliveredTransferReachesHandler | libraries/AP_CYPHAL/AP_CYPHAL_subscriber.h:41-42 | A transfer that a registered subscriber's own subscription delivers is routed to that subscriber. |
| SubscriberRegistry.BuiltinSubscribers | libraries/AP_CYPHAL/AP_CYPHAL_subscriber.h:96-127 | The built-in node services are Heartbeat (message-class), GetInfo and ExecuteCommand (request-class), all properly constructed. |
| SubscriberRegistry.BuiltinSetup | libraries/AP_CYPHAL/AP_CYPHAL_subscriber.h:42-46 | Registering the three built-ins on a fresh manager succeeds three times and fills slots 0 to 2 in call order. |
| SubscriberRegistry.BuiltinPortsUnique | libraries/AP_CYPHAL/AP_CYPHAL_subscriber.h:96-127 | After the built-in setup, no two registered handlers share a port id. |
| SubscriberRegistry.MessageOnServicePortReachesGetInfo | libraries/AP_CYPHAL/AP_CYPHAL_subscriber.h:41 | After the built-in setup, a message on subject 430 is routed to GetInfo and answered, although the GetInfo subscription never delivers it. |

## Left out

- Register-index constructor and `init(register_idx)` (lines 53 and 72): these resolve port ids through the external register and configuration subsystem.
- `init(ins, tx_queue)` (line 40) and the deleted copy constructor (line 39): C++ wiring and ownership. The transport instance and TX queue held by each subscriber are not modelled.
- libcanard is not part of this model. Subscription creation, payload extents, frame assembly, CRC, transfer-id bookkeeping, TX queue memory, and enqueue failure are all outside it. `Subscribe` returns the subscription it requests, and `PushResponse` returns the transfer it enqueues.
- The remote node id and transfer id fields of the response metadata: the constructor does not fill them in, and the code that does is not part of this model.
- DSDL serialisation of Heartbeat, GetInfo and ExecuteCommand payloads, and the contents of `_node_status`: payloads are opaque byte strings.
- Subscribers.Handle: the `handler` bodies (declared at lines 101, 113 and 129) are not part of this model, so `Handle` rests on three assumptions.
  - Heartbeat and every other message-class handler emit no transfer.
  - Every request-class handler pushes exactly one response, under its template. `OneResponsePerRequest` inherits this count.
  - GetInfo answers with its cached node status whatever the request holds, although its `makeResponse` takes the transfer as an argument (line 115). `GetInfoIsPureQuery` rests on this assumption.
  The payload that ExecuteCommand and generic request handlers answer with comes from an external `Responder` parameter (decode, execute, encode). So "an unknown command code is answered with a failure status" is not modelled.
- The `uavcan.register.Access` and `uavcan.register.List` services: the header includes their types (lines 28-29), but their handlers are declared elsewhere and are not part of this model.
- Heartbeat's hand-off of decoded peer state to a liveness tracker: it is external, so the model records only that Heartbeat emits no transfer.
- Subscribers.NewHeartbeat, Subscribers.NewGetInfo: these constructors take no port id, and their bodies are not part of this model. The model assumes the standard fixed ports 7509 (Heartbeat) and 430 (GetInfo) of the Cyphal Specification v1.0. ExecuteCommand's port 435 is the fixed port its constructor names.
- A null pointer passed to `add_subscriber` is not modelled: the model passes subscriber values.
- `number_of_subscribers` is a `uint8_t`. It is modelled as a natural number, because it never exceeds 17 and so cannot wrap.
- Duplicate port ids are accepted at registration, as the header gives no check. Routing then runs every duplicate, in slot order.
- `AP_RangeFinder_Backend.h` is an ordinary peripheral driver and not part of the protocol core.
- The real-time scheduler and any concurrency.
