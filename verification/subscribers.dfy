/**
  The subscriber hierarchy: a base subscriber carrying a port identifier,
  the request/response specialisation that owns a fixed response
  template, and the three built-in node-service handlers. The C++ class
  hierarchy is closed at build time, so it is modelled as one datatype
  whose variants are the concrete subscribers, plus two variants standing
  for any other driver-specific message or request subscriber.
 */
module Subscribers {
  import opened CyphalTypes

  /** A registered handler. Every variant carries the base class's port
      identifier; request-class variants also carry the response
      template their constructor fills in. */
  datatype Subscriber =
    | Heartbeat(portId: PortId)
    | GetInfo(portId: PortId, metadata: TransferMetadata, nodeStatus: seq<bv8>)
    | ExecuteCommand(portId: PortId, metadata: TransferMetadata)
    | MessageSubscriber(portId: PortId)
    | RequestSubscriber(portId: PortId, metadata: TransferMetadata)
  {
    /** Request-class subscribers answer service calls; the others only
        receive messages. */
    predicate IsRequest() {
      GetInfo? || ExecuteCommand? || RequestSubscriber?
    }

    /** The accessor of the base class. */
    function GetPortId(): PortId {
      portId
    }

    /** What every constructor establishes and nothing later changes: a
        request subscriber's template answers on its own port with
        nominal priority, and the built-in handlers sit on their fixed
        ports. */
    predicate Valid() {
      && (IsRequest() ==> metadata == ResponseTemplate(portId))
      && (Heartbeat? ==> portId == HeartbeatPortId)
      && (GetInfo? ==> portId == GetInfoPortId)
      && (ExecuteCommand? ==> portId == ExecuteCommandPortId)
    }
  }

  /** The response metadata the request-subscriber constructor fills in. */
  function ResponseTemplate(portId: PortId): TransferMetadata {
    TransferMetadata(Nominal, Response, portId)
  }

  /** A driver-specific message subscriber built from the base class
      constructor that takes an explicit port identifier. */
  function NewMessageSubscriber(portId: PortId): (s: Subscriber)
    ensures s.Valid() && !s.IsRequest()
    ensures s.GetPortId() == portId
  {
    MessageSubscriber(portId)
  }

  /** A driver-specific request subscriber: the base constructor stores the
      port identifier and the body fills in the response template. */
  function NewRequestSubscriber(portId: PortId): (s: Subscriber)
    ensures s.Valid() && s.IsRequest()
    ensures s.GetPortId() == portId
    ensures s.metadata.priority == Nominal && s.metadata.transferKind == Response
    ensures s.metadata.portId == portId
  {
    RequestSubscriber(portId, ResponseTemplate(portId))
  }

  /** The uavcan.node.Heartbeat.1.0 handler: a plain message subscriber. */
  function NewHeartbeat(): (s: Subscriber)
    ensures s.Valid() && !s.IsRequest()
    ensures s.GetPortId() == HeartbeatPortId
  {
    Heartbeat(HeartbeatPortId)
  }

  /** The uavcan.node.GetInfo.1.0 handler; `nodeStatus` is the serialised
      identity response it caches. */
  function NewGetInfo(nodeStatus: seq<bv8>): (s: Subscriber)
    ensures s.Valid() && s.IsRequest()
    ensures s.GetPortId() == GetInfoPortId
    ensures s.metadata.portId == GetInfoPortId
  {
    GetInfo(GetInfoPortId, ResponseTemplate(GetInfoPortId), nodeStatus)
  }

  /** The uavcan.node.ExecuteCommand handler, always on the fixed port. */
  function NewExecuteCommand(): (s: Subscriber)
    ensures s.Valid() && s.IsRequest()
    ensures s.GetPortId() == ExecuteCommandPortId
    ensures s.metadata.portId == ExecuteCommandPortId
  {
    ExecuteCommand(ExecuteCommandPortId, ResponseTemplate(ExecuteCommandPortId))
  }

  /** A subscription the transfer library is asked to create: which kind
      of transfer, on which port, is delivered to the subscriber. */
  datatype Subscription = Subscription(kind: TransferKind, portId: PortId)

  /** True when the transfer library delivers `t` through `sub`. */
  predicate Delivers(sub: Subscription, t: RxTransfer) {
    t.kind == sub.kind && t.portId == sub.portId
  }

  /** The `subscribe` override of each concrete subscriber: message-class
      subscribers subscribe on messages, request-class ones on requests,
      always for their own port identifier. */
  function Subscribe(s: Subscriber): (sub: Subscription)
    ensures sub.portId == s.GetPortId()
    ensures sub.kind == Request <==> s.IsRequest()
    ensures sub.kind == Message <==> !s.IsRequest()
  {
    if s.IsRequest() then Subscription(Request, s.portId)
    else Subscription(Message, s.portId)
  }

  /** `push_response`: the first `bufSize` bytes of `buf` go out under the
      subscriber's response template. */
  function PushResponse(s: Subscriber, bufSize: nat, buf: seq<bv8>): (out: TxTransfer)
    requires s.Valid() && s.IsRequest()
    requires bufSize <= |buf|
    ensures out.metadata.priority == Nominal
    ensures out.metadata.transferKind == Response
    ensures out.metadata.portId == s.GetPortId()
    ensures |out.payload| == bufSize
    ensures forall i :: 0 <= i < bufSize ==> out.payload[i] == buf[i]
  {
    TxTransfer(s.metadata, buf[..bufSize])
  }

  /** The response payload a request handler builds from an inbound
      request (DSDL decoding, command execution and encoding are external). */
  type Responder = (Subscriber, RxTransfer) -> seq<bv8>

  /** The `handler` override of each concrete subscriber, reduced to the
      transfers it emits: message-class handlers emit nothing, request-class
      handlers answer with exactly one response; GetInfo answers with its
      cached identity payload whatever the request holds. */
  function Handle(s: Subscriber, t: RxTransfer, respond: Responder): (out: seq<TxTransfer>)
    requires s.Valid()
    ensures !s.IsRequest() ==> out == []
    ensures s.IsRequest() ==> |out| == 1
    ensures forall k :: 0 <= k < |out| ==>
      out[k].metadata == TransferMetadata(Nominal, Response, s.GetPortId())
    ensures s.GetInfo? ==> out[0].payload == s.nodeStatus
  {
    if !s.IsRequest() then []
    else
      var payload := if s.GetInfo? then s.nodeStatus else respond(s, t);
      [PushResponse(s, |payload|, payload)]
  }

  /** GetInfo is a pure query: its answer does not depend on the request. */
  lemma GetInfoIsPureQuery(s: Subscriber, t1: RxTransfer, t2: RxTransfer, respond: Responder)
    requires s.Valid() && s.GetInfo?
    ensures Handle(s, t1, respond) == Handle(s, t2, respond)
  {
  }

  /** The built-in handlers: Heartbeat is message-class without a template,
      GetInfo and ExecuteCommand are request-class, and their three fixed
      ports are pairwise distinct. */
  lemma BuiltinHandlers(nodeStatus: seq<bv8>)
    ensures !NewHeartbeat().IsRequest()
    ensures NewGetInfo(nodeStatus).IsRequest() && NewExecuteCommand().IsRequest()
    ensures Subscribe(NewHeartbeat()) == Subscription(Message, HeartbeatPortId)
    ensures Subscribe(NewGetInfo(nodeStatus)) == Subscription(Request, GetInfoPortId)
    ensures Subscribe(NewExecuteCommand()) == Subscription(Request, ExecuteCommandPortId)
    ensures HeartbeatPortId != GetInfoPortId && GetInfoPortId != ExecuteCommandPortId
    ensures HeartbeatPortId != ExecuteCommandPortId
  {
  }
}
