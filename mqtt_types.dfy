/** Values shared by the MQTT agent: coreMQTT status codes, quality of service,
    command records, the pending-acknowledgment record, incoming packets and the
    trace of calls made into the protocol engine. */
module MqttTypes {

  datatype Option<T> = None | Some(value: T)

  /** MQTTStatus_t of coreMQTT. */
  datatype Status =
    | Success
    | BadParameter
    | NoMemory
    | SendFailed
    | RecvFailed
    | BadResponse
    | ServerRefused
    | NoDataAvailable
    | IllegalState
    | StateCollision
    | KeepAliveTimeout

  datatype QoS = QoS0 | QoS1 | QoS2

  datatype ConnectStatus = NotConnected | Connected

  /** CommandType_t; NoneCommand is the value of a zeroed command. */
  datatype CommandType =
    | NoneCommand
    | ProcessLoopCommand
    | PublishCommand
    | SubscribeCommand
    | UnsubscribeCommand
    | PingCommand
    | ConnectCommand
    | DisconnectCommand
    | TerminateCommand

  /** What a command's pArgs points to. NoArgs is a NULL pointer. Only the
      fields the agent reads are kept. */
  datatype Args =
    | NoArgs
    | PublishArgs(qos: QoS, dup: bool, topicNameLength: nat, payloadLength: nat)
    | SubscribeArgs(numSubscriptions: nat)
    | ConnectArgs(timeoutMs: nat)

  /** Command_t: `callback` says whether pCommandCompleteCallback is non-NULL,
      `context` stands for pCmdContext. */
  datatype Command = Command(commandType: CommandType, args: Args, callback: bool, context: nat)

  /** The all-zero Command_t left by memset. */
  const ZeroCommand := Command(NoneCommand, NoArgs, false, 0)

  /** A Command_t pointer: NULL, or the address of slot `index` of the command pool
      (an index at or beyond the pool size is a pointer that is not into the pool). */
  datatype CommandRef = NullCommand | PoolSlot(index: nat)

  /** MQTT_PACKET_ID_INVALID. */
  const PACKET_ID_INVALID: int := 0

  /** The largest uint16_t packet identifier. */
  const MAX_PACKET_ID: int := 65535

  /** AckInfo_t: one entry of the pending-acknowledgment table. */
  datatype AckInfo = AckInfo(packetId: int, originalCommand: CommandRef)

  /** The all-zero AckInfo_t. */
  const ZeroAck := AckInfo(PACKET_ID_INVALID, NullCommand)

  /** One call of a command's completion callback: its pCmdContext and the
      MQTTAgentReturnInfo_t it receives. pSubackCodes is a pointer into a SUBACK's
      remaining data, modelled as an address; None is NULL. */
  datatype Completion = Completion(context: nat, returnCode: Status, subackCodes: Option<nat>)

  /** Control-packet type bytes of MQTT 3.1.1 section 2.2.1 (first header byte;
      PUBREL carries its fixed flags 0b0010). */
  const PACKET_TYPE_PUBLISH: bv8 := 0x30
  const PACKET_TYPE_PUBACK: bv8 := 0x40
  const PACKET_TYPE_PUBREC: bv8 := 0x50
  const PACKET_TYPE_PUBREL: bv8 := 0x62
  const PACKET_TYPE_PUBCOMP: bv8 := 0x70
  const PACKET_TYPE_SUBACK: bv8 := 0x90
  const PACKET_TYPE_UNSUBACK: bv8 := 0xB0
  const PACKET_TYPE_PINGRESP: bv8 := 0xD0

  /** The lower four bits of a PUBLISH type byte carry DUP, QoS and RETAIN
      (MQTT 3.1.1 section 2.2); this mask keeps the packet type. */
  const UPPER_NIBBLE: bv8 := 0xF0

  predicate IsPublishType(packetType: bv8) {
    packetType & UPPER_NIBBLE == PACKET_TYPE_PUBLISH
  }

  /** What the event callback reads of a dispatched packet: its type byte, the
      deserialised packet identifier and result, and the address of its
      remaining data (pRemainingData). */
  datatype IncomingPacket = IncomingPacket(packetType: bv8, packetId: int, deserializationResult: Status, remainingData: nat)

  /** The outcome of one MQTT_ProcessLoop call with a zero timeout: the packet it
      received and dispatched (if any) and the status it returned. */
  datatype Pass = Pass(packet: Option<IncomingPacket>, status: Status)

  /** One call into the coreMQTT engine, as recorded in the engine's trace. */
  datatype EngineCall =
    | ConnectCall
    | PublishCall(packetId: int, dup: bool)
    | SubscribeCall(packetId: int)
    | UnsubscribeCall(packetId: int)
    | PingCall
    | DisconnectCall
    | ProcessLoopCall

  /** `n` calls of MQTT_ProcessLoop. */
  function ProcessLoopCalls(n: nat): (r: seq<EngineCall>)
    ensures |r| == n
    ensures forall i :: 0 <= i < n ==> r[i] == ProcessLoopCall
  {
    if n == 0 then [] else ProcessLoopCalls(n - 1) + [ProcessLoopCall]
  }

  /** The smaller of two counts. */
  function Min(a: nat, b: nat): nat { if a <= b then a else b }
}
