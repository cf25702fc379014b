/** The coreMQTT engine as the agent sees it: an opaque MQTTContext_t. Every call
    that talks to the broker returns the status the engine chooses (a parameter
    here) and is recorded in `calls`; MQTT_ProcessLoop consumes the next entry of
    the finite sequence `incoming`; MQTT_GetPacketId hands out the uint16_t counter
    `nextPacketId`, skipping 0. */
module CoreMqtt {
  import opened MqttTypes

  class MqttContext {
    var connectStatus: ConnectStatus
    var nextPacketId: int
    /** networkBuffer.size */
    var networkBufferSize: nat
    /** What the next MQTT_ProcessLoop calls will see, one Pass per call. */
    var incoming: seq<Pass>
    /** Every engine call made so far, oldest first. */
    var calls: seq<EngineCall>

    ghost predicate Valid()
      reads this
    {
      PACKET_ID_INVALID <= nextPacketId <= MAX_PACKET_ID
    }

    constructor (connectStatus: ConnectStatus, nextPacketId: int, networkBufferSize: nat, incoming: seq<Pass>)
      requires PACKET_ID_INVALID <= nextPacketId <= MAX_PACKET_ID
      ensures Valid()
      ensures this.connectStatus == connectStatus && this.nextPacketId == nextPacketId
      ensures this.networkBufferSize == networkBufferSize && this.incoming == incoming
      ensures calls == []
    {
      this.connectStatus := connectStatus;
      this.nextPacketId := nextPacketId;
      this.networkBufferSize := networkBufferSize;
      this.incoming := incoming;
      calls := [];
    }

    /** MQTT_GetPacketId: the current counter value; the counter then moves on,
        wrapping from 65535 to 1 so that it never hands out 0 again. */
    method GetPacketId() returns (id: int)
      requires Valid()
      modifies this
      ensures Valid()
      ensures id == old(nextPacketId)
      ensures nextPacketId == NextPacketId(old(nextPacketId))
      ensures old(nextPacketId) != PACKET_ID_INVALID ==> id != PACKET_ID_INVALID && nextPacketId != PACKET_ID_INVALID
      ensures connectStatus == old(connectStatus) && networkBufferSize == old(networkBufferSize)
      ensures incoming == old(incoming) && calls == old(calls)
    {
      id := nextPacketId;
      if nextPacketId == MAX_PACKET_ID {
        nextPacketId := 1;
      } else {
        nextPacketId := nextPacketId + 1;
      }
    }

    /** MQTT_Connect: on success the connection is established; the engine also
        reports whether the broker resumed a session. */
    method Connect(reply: Status, sessionReply: bool) returns (status: Status, sessionPresent: bool)
      modifies this
      ensures status == reply && sessionPresent == sessionReply
      ensures calls == old(calls) + [ConnectCall]
      ensures connectStatus == if reply == Success then Connected else old(connectStatus)
      ensures nextPacketId == old(nextPacketId) && networkBufferSize == old(networkBufferSize)
      ensures incoming == old(incoming)
    {
      status, sessionPresent := reply, sessionReply;
      calls := calls + [ConnectCall];
      if reply == Success {
        connectStatus := Connected;
      }
    }

    /** MQTT_Publish with the given packet identifier and DUP flag. */
    method Publish(packetId: int, dup: bool, reply: Status) returns (status: Status)
      modifies this
      ensures status == reply
      ensures calls == old(calls) + [PublishCall(packetId, dup)]
      ensures connectStatus == old(connectStatus) && nextPacketId == old(nextPacketId)
      ensures networkBufferSize == old(networkBufferSize) && incoming == old(incoming)
    {
      status := reply;
      calls := calls + [PublishCall(packetId, dup)];
    }

    /** MQTT_Subscribe. */
    method Subscribe(packetId: int, reply: Status) returns (status: Status)
      modifies this
      ensures status == reply
      ensures calls == old(calls) + [SubscribeCall(packetId)]
      ensures connectStatus == old(connectStatus) && nextPacketId == old(nextPacketId)
      ensures networkBufferSize == old(networkBufferSize) && incoming == old(incoming)
    {
      status := reply;
      calls := calls + [SubscribeCall(packetId)];
    }

    /** MQTT_Unsubscribe. */
    method Unsubscribe(packetId: int, reply: Status) returns (status: Status)
      modifies this
      ensures status == reply
      ensures calls == old(calls) + [UnsubscribeCall(packetId)]
      ensures connectStatus == old(connectStatus) && nextPacketId == old(nextPacketId)
      ensures networkBufferSize == old(networkBufferSize) && incoming == old(incoming)
    {
      status := reply;
      calls := calls + [UnsubscribeCall(packetId)];
    }

    /** MQTT_Ping. */
    method Ping(reply: Status) returns (status: Status)
      modifies this
      ensures status == reply
      ensures calls == old(calls) + [PingCall]
      ensures connectStatus == old(connectStatus) && nextPacketId == old(nextPacketId)
      ensures networkBufferSize == old(networkBufferSize) && incoming == old(incoming)
    {
      status := reply;
      calls := calls + [PingCall];
    }

    /** MQTT_Disconnect: on success the connection is closed. */
    method Disconnect(reply: Status) returns (status: Status)
      modifies this
      ensures status == reply
      ensures calls == old(calls) + [DisconnectCall]
      ensures connectStatus == if reply == Success then NotConnected else old(connectStatus)
      ensures nextPacketId == old(nextPacketId) && networkBufferSize == old(networkBufferSize)
      ensures incoming == old(incoming)
    {
      status := reply;
      calls := calls + [DisconnectCall];
      if reply == Success {
        connectStatus := NotConnected;
      }
    }

    /** MQTT_ProcessLoop with a zero timeout: takes the next pending Pass, if any,
        and returns the packet it dispatches (for the caller to hand to the event
        callback) and its status; with nothing pending it receives nothing and
        succeeds. */
    method ProcessLoop() returns (status: Status, packet: Option<IncomingPacket>)
      modifies this
      ensures (status, packet) == NextPass(old(incoming))
      ensures incoming == RestAfterPass(old(incoming))
      ensures calls == old(calls) + [ProcessLoopCall]
      ensures connectStatus == old(connectStatus) && nextPacketId == old(nextPacketId)
      ensures networkBufferSize == old(networkBufferSize)
    {
      calls := calls + [ProcessLoopCall];
      if incoming == [] {
        status, packet := Success, None;
      } else {
        status, packet := incoming[0].status, incoming[0].packet;
        incoming := incoming[1..];
      }
    }
  }

  /** The counter value after MQTT_GetPacketId. */
  function NextPacketId(id: int): (r: int)
    requires PACKET_ID_INVALID <= id <= MAX_PACKET_ID
    ensures PACKET_ID_INVALID < r <= MAX_PACKET_ID
    ensures r == id + 1 || (id == MAX_PACKET_ID && r == 1)
  {
    if id == MAX_PACKET_ID then 1 else id + 1
  }

  /** Status and packet of one MQTT_ProcessLoop call over the pending passes. */
  function NextPass(incoming: seq<Pass>): (Status, Option<IncomingPacket>)
  {
    if incoming == [] then (Success, None) else (incoming[0].status, incoming[0].packet)
  }

  /** The pending passes after one MQTT_ProcessLoop call. */
  function RestAfterPass(incoming: seq<Pass>): seq<Pass>
  {
    if incoming == [] then [] else incoming[1..]
  }
}
