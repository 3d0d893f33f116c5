/**
  Transport-facing vocabulary of the Cyphal subscriber layer: port
  identifiers, priorities, transfer kinds and the metadata that travels
  with every transfer (section 4.1 of the Cyphal Specification v1.0).
  The transfer library itself (frame assembly, CRC, transfer-ID
  bookkeeping) is not part of this model; transfers appear here only as
  the records it hands to, and accepts from, the subscriber layer.
 */
module CyphalTypes {

  /** An empty or occupied registry slot. */
  datatype Option<+T> = None | Some(value: T)

  /** A port identifier is a 16-bit unsigned integer (CanardPortID). */
  newtype PortId = x: int | 0 <= x < 0x1_0000

  /** The eight Cyphal transfer priority levels, highest first. */
  datatype Priority =
    | Exceptional | Immediate | Fast | High | Nominal | Low | Slow | Optional

  /** Message transfers are broadcast on a subject; requests and responses
      form a service call. */
  datatype TransferKind = Message | Response | Request

  /** The part of a transfer's metadata the subscriber layer sets or reads. */
  datatype TransferMetadata = TransferMetadata(
    priority: Priority,
    transferKind: TransferKind,
    portId: PortId)

  /** An inbound transfer as the transfer library delivers it. The payload
      is an opaque byte string; its DSDL decoding is not modelled. */
  datatype RxTransfer = RxTransfer(kind: TransferKind, portId: PortId, payload: seq<bv8>)

  /** An outbound transfer handed to the transmission queue. */
  datatype TxTransfer = TxTransfer(metadata: TransferMetadata, payload: seq<bv8>)

  /** Fixed port identifiers of the standard node services
      (uavcan.node.Heartbeat.1.0, uavcan.node.GetInfo.1.0,
      uavcan.node.ExecuteCommand.1.0). */
  const HeartbeatPortId: PortId := 7509
  const GetInfoPortId: PortId := 430
  const ExecuteCommandPortId: PortId := 435
}
