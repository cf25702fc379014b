/** Value-level specification of the monolithic MQTT agent
    (freertos_mqtt_agent.c): the pending-acknowledgment table, command
    validation, command execution, acknowledgment dispatch from the event
    callback, the drain of MQTT_ProcessLoop and the session-resume rules. The
    in-place implementation in module FreertosMqttAgent is proved against these
    functions. */
module AgentSpec {
  import opened MqttTypes
  import opened CoreMqtt
  import opened AgentCommandPool
  import CF = MqttAgentCommandFunctions

  /** SIZE_MAX + 1 on the 32-bit targets the agent is built for. */
  const SIZE_T_MODULUS: int := 0x1_0000_0000

  /** Control, remaining-length and length bytes added to a PUBLISH header. */
  const CONTROL_AND_LENGTH_BYTES: int := 4

  // ---------------------------------------------------------------------------
  // The pending-acknowledgment table (pPendingAcks)

  /** Index of the first entry whose packetId is `id`, or |acks| when there is
      none. With id == MQTT_PACKET_ID_INVALID it is the first free slot. */
  function FindAck(acks: seq<AckInfo>, id: int): (k: nat)
    ensures k <= |acks|
    ensures forall i :: 0 <= i < k ==> acks[i].packetId != id
    ensures k < |acks| ==> acks[k].packetId == id
  {
    if acks == [] then 0
    else if acks[0].packetId == id then 0
    else 1 + FindAck(acks[1..], id)
  }

  /** A scan that stops at the first entry with `id` stops at FindAck. */
  lemma FindAckAt(acks: seq<AckInfo>, id: int, i: nat)
    requires i <= |acks|
    requires forall j :: 0 <= j < i ==> acks[j].packetId != id
    requires i < |acks| ==> acks[i].packetId == id
    ensures FindAck(acks, id) == i
  {
  }

  /** The table has a free slot. */
  predicate HasSpace(acks: seq<AckInfo>) {
    FindAck(acks, PACKET_ID_INVALID) < |acks|
  }

  /** addAwaitingOperation on the table's values. */
  function AddAwaiting(acks: seq<AckInfo>, packetId: int, ref: CommandRef): (bool, seq<AckInfo>)
  {
    var k := FindAck(acks, PACKET_ID_INVALID);
    if k < |acks| then (true, acks[k := AckInfo(packetId, ref)]) else (false, acks)
  }

  /** getAwaitingOperation on the table's values: the entry found (a zeroed
      record when none matches) and the table afterwards. */
  function GetAwaiting(acks: seq<AckInfo>, id: int, remove: bool): (AckInfo, seq<AckInfo>)
  {
    var k := FindAck(acks, id);
    if k < |acks| then
      (acks[k], if remove then acks[k := acks[k].(packetId := PACKET_ID_INVALID)] else acks)
    else
      (ZeroAck, acks)
  }

  /** Every occupied entry refers to a command structure of the pool, which has
      therefore been initialised. */
  predicate TableInvariant(acks: seq<AckInfo>, poolSize: nat, poolReady: bool) {
    forall i :: 0 <= i < |acks| && acks[i].packetId != PACKET_ID_INVALID ==>
      InPool(acks[i].originalCommand, poolSize) && poolReady
  }

  /** isSpaceInPendingAckList's verdict: some slot is free. */
  lemma SpaceMeansSomeSlotIsFree(acks: seq<AckInfo>)
    ensures HasSpace(acks) <==> exists i :: 0 <= i < |acks| && acks[i].packetId == PACKET_ID_INVALID
  {
  }

  /** addAwaitingOperation fills the lowest free slot and no other; with no free
      slot it fails and leaves the table as it was. */
  lemma AddAwaitingFillsLowestFreeSlot(acks: seq<AckInfo>, packetId: int, ref: CommandRef)
    ensures var (added, after) := AddAwaiting(acks, packetId, ref);
            && added == HasSpace(acks)
            && |after| == |acks|
            && (added ==> exists k :: 0 <= k < |acks| && acks[k].packetId == PACKET_ID_INVALID
                            && after[k] == AckInfo(packetId, ref)
                            && (forall i :: 0 <= i < k ==> acks[i].packetId != PACKET_ID_INVALID)
                            && (forall i :: 0 <= i < |acks| && i != k ==> after[i] == acks[i]))
            && (!added ==> after == acks)
  {
    var k := FindAck(acks, PACKET_ID_INVALID);
    if k < |acks| {
      var after := AddAwaiting(acks, packetId, ref).1;
      assert after[k] == AckInfo(packetId, ref);
    }
  }

  /** getAwaitingOperation returns the lowest-index entry carrying the id and,
      when asked to remove it, invalidates that slot only; when nothing matches
      it returns a zeroed record and leaves the table as it was. */
  lemma GetAwaitingReturnsLowestMatch(acks: seq<AckInfo>, id: int, remove: bool)
    ensures var (found, after) := GetAwaiting(acks, id, remove);
            && |after| == |acks|
            && ((exists i :: 0 <= i < |acks| && acks[i].packetId == id) ==>
                  exists k :: 0 <= k < |acks| && acks[k].packetId == id && found == acks[k]
                    && (forall i :: 0 <= i < k ==> acks[i].packetId != id)
                    && after[k].packetId == (if remove then PACKET_ID_INVALID else id)
                    && after[k].originalCommand == acks[k].originalCommand
                    && (forall i :: 0 <= i < |acks| && i != k ==> after[i] == acks[i]))
            && ((forall i :: 0 <= i < |acks| ==> acks[i].packetId != id) ==> found == ZeroAck && after == acks)
  {
    var k := FindAck(acks, id);
    if k < |acks| {
      var after := GetAwaiting(acks, id, remove).1;
      assert after[k].packetId == (if remove then PACKET_ID_INVALID else id);
    }
  }

  /** Adding an entry for a pool command and removing entries keep every
      occupied entry pointing into the pool. */
  lemma TableOperationsKeepInvariant(acks: seq<AckInfo>, poolSize: nat, packetId: int, ref: CommandRef, id: int, remove: bool)
    requires TableInvariant(acks, poolSize, true)
    requires InPool(ref, poolSize)
    ensures TableInvariant(AddAwaiting(acks, packetId, ref).1, poolSize, true)
    ensures TableInvariant(GetAwaiting(acks, id, remove).1, poolSize, true)
  {
  }

  // ---------------------------------------------------------------------------
  // Command validation (createCommand)

  /** The argument kinds the typed public API can hand to createCommand; NoArgs
      is a NULL pointer, and lengths fit their C types. */
  predicate ArgsFit(commandType: CommandType, args: Args) {
    match commandType
      case PublishCommand =>
        args.NoArgs? || (args.PublishArgs? && args.payloadLength < SIZE_T_MODULUS && args.topicNameLength <= MAX_PACKET_ID)
      case SubscribeCommand => args.NoArgs? || args.SubscribeArgs?
      case UnsubscribeCommand => args.NoArgs? || args.SubscribeArgs?
      case ConnectCommand => args.NoArgs? || args.ConnectArgs?
      case _ => args.NoArgs?
  }

  /** The size check of a PUBLISH, computed in size_t as written: the sum of the
      payload length and the header bytes wraps modulo SIZE_MAX + 1. */
  predicate PublishFits(payloadLength: nat, topicNameLength: nat, bufferSize: nat) {
    (payloadLength + (CONTROL_AND_LENGTH_BYTES + topicNameLength)) % SIZE_T_MODULUS < bufferSize
  }

  /** createCommand's verdict. `agentPresent` is pMqttAgentContext != NULL and
      `hasSpace` is what isSpaceInPendingAckList finds in its table. */
  function Validate(commandType: CommandType, args: Args, agentPresent: bool, hasSpace: bool, bufferSize: nat): Status
  {
    var spaceFound := agentPresent && hasSpace;
    var (isValid, isSpace) :=
      match commandType
        case SubscribeCommand => (!args.NoArgs? && agentPresent && spaceFound, spaceFound)
        case UnsubscribeCommand => (agentPresent && !args.NoArgs? && spaceFound, spaceFound)
        case PublishCommand =>
          if !args.PublishArgs? then (false, true)
          else
            var isSpace := if args.qos != QoS0 then spaceFound else true;
            (agentPresent && PublishFits(args.payloadLength, args.topicNameLength, bufferSize) && isSpace, isSpace)
        case ProcessLoopCommand => (agentPresent, true)
        case PingCommand => (agentPresent, true)
        case ConnectCommand => (agentPresent, true)
        case DisconnectCommand => (agentPresent, true)
        case _ => (true, true);
    if isValid then Success else if !isSpace then NoMemory else BadParameter
  }

  /** A PUBLISH is accepted iff its publish info is there, the agent is there,
      the message fits the network buffer and, above QoS 0, the table has room.
      When it is refused for want of room the status is MQTTNoMemory, otherwise
      MQTTBadParameter; a QoS 0 publish never needs room. */
  lemma PublishValidation(args: Args, agentPresent: bool, hasSpace: bool, bufferSize: nat)
    ensures var r := Validate(PublishCommand, args, agentPresent, hasSpace, bufferSize);
            && (r == Success <==>
                  args.PublishArgs? && agentPresent && PublishFits(args.payloadLength, args.topicNameLength, bufferSize)
                  && (args.qos == QoS0 || hasSpace))
            && (r == NoMemory <==>
                  args.PublishArgs? && args.qos != QoS0 && !(agentPresent && hasSpace))
            && (r == Success || r == NoMemory || r == BadParameter)
            && (args.PublishArgs? && args.qos == QoS0 ==>
                  r == Validate(PublishCommand, args, agentPresent, !hasSpace, bufferSize))
  {
  }

  /** A SUBSCRIBE or UNSUBSCRIBE is accepted iff its info is there, the agent is
      there and the table has room; with no room, or no agent to hold a table,
      the status is MQTTNoMemory. */
  lemma SubscriptionValidation(commandType: CommandType, args: Args, agentPresent: bool, hasSpace: bool, bufferSize: nat)
    requires commandType == SubscribeCommand || commandType == UnsubscribeCommand
    ensures var r := Validate(commandType, args, agentPresent, hasSpace, bufferSize);
            && (r == Success <==> !args.NoArgs? && agentPresent && hasSpace)
            && (r == NoMemory <==> !(agentPresent && hasSpace))
            && (r == BadParameter <==> args.NoArgs? && agentPresent && hasSpace)
  {
  }

  /** Commands that need only the agent succeed iff it is there, and fail with
      MQTTBadParameter otherwise; TERMINATE and NONE always succeed. */
  lemma OtherCommandValidation(commandType: CommandType, args: Args, agentPresent: bool, hasSpace: bool, bufferSize: nat)
    requires commandType !in {PublishCommand, SubscribeCommand, UnsubscribeCommand}
    ensures var r := Validate(commandType, args, agentPresent, hasSpace, bufferSize);
            && (commandType in {ProcessLoopCommand, PingCommand, ConnectCommand, DisconnectCommand} ==>
                  r == (if agentPresent then Success else BadParameter))
            && (commandType in {NoneCommand, TerminateCommand} ==> r == Success)
  {
  }

  /** createCommand checks only the agent for a CONNECT, so a CONNECT whose
      connect arguments are NULL is accepted, although processCommand
      dereferences them: the command queued is one it cannot run. */
  lemma ConnectWithoutArgsIsAccepted(hasSpace: bool, bufferSize: nat, callback: bool, context: nat)
    ensures ArgsFit(ConnectCommand, NoArgs)
    ensures Validate(ConnectCommand, NoArgs, true, hasSpace, bufferSize) == Success
    ensures !WellFormedCommand(Command(ConnectCommand, NoArgs, callback, context))
  {
  }

  /** createCommand's verdict with the evidently intended check that a CONNECT
      carries its connect arguments; every other case is Validate's. */
  function ValidateCorrected(commandType: CommandType, args: Args, agentPresent: bool, hasSpace: bool, bufferSize: nat): (r: Status)
    ensures r == Success && commandType == ConnectCommand ==> args.ConnectArgs? && agentPresent
    ensures r == Success && commandType == PublishCommand ==> args.PublishArgs?
  {
    if commandType == ConnectCommand && !args.ConnectArgs? then BadParameter
    else Validate(commandType, args, agentPresent, hasSpace, bufferSize)
  }

  /** With the corrected check every accepted command is one processCommand can
      run, and the verdict differs from createCommand's only for an accepted
      CONNECT without connect arguments. */
  lemma ValidateCorrectedAcceptsOnlyRunnable(commandType: CommandType, args: Args, agentPresent: bool, hasSpace: bool,
                                             bufferSize: nat, callback: bool, context: nat)
    ensures ValidateCorrected(commandType, args, agentPresent, hasSpace, bufferSize) == Success ==>
              WellFormedCommand(Command(commandType, args, callback, context))
    ensures ValidateCorrected(commandType, args, agentPresent, hasSpace, bufferSize)
              != Validate(commandType, args, agentPresent, hasSpace, bufferSize)
            <==> commandType == ConnectCommand && !args.ConnectArgs? && agentPresent
  {
  }

  /** Without wrap-around the size check is the intended strict inequality. */
  lemma PublishFitsWithoutWrap(payloadLength: nat, topicNameLength: nat, bufferSize: nat)
    requires payloadLength + CONTROL_AND_LENGTH_BYTES + topicNameLength < SIZE_T_MODULUS
    ensures PublishFits(payloadLength, topicNameLength, bufferSize)
            <==> payloadLength + topicNameLength + CONTROL_AND_LENGTH_BYTES < bufferSize
  {
  }

  /** With a payload of SIZE_MAX - 3 bytes the size_t sum wraps to 0, so the
      check passes for any non-empty buffer although the message cannot fit. */
  lemma PublishFitsWrapsForHugePayload()
    ensures PublishFits(SIZE_T_MODULUS - CONTROL_AND_LENGTH_BYTES, 0, 1)
    ensures SIZE_T_MODULUS - CONTROL_AND_LENGTH_BYTES + 0 + CONTROL_AND_LENGTH_BYTES >= 1
  {
  }

  // ---------------------------------------------------------------------------
  // Acknowledgment dispatch (mqttEventCallback, handleSubscriptionAcks)

  /** The part of the agent's state that the event callback and the drain
      change: the table, the pool's semaphores, the completion callbacks made
      and the packet identifiers handed to the incoming-publish callback. */
  datatype Snapshot = Snapshot(acks: seq<AckInfo>, available: seq<bool>, completions: seq<Completion>, published: seq<int>)

  /** The completion callback of the command `ref` points to, when it has one,
      called with `code`. */
  function Notify(completions: seq<Completion>, commands: seq<Command>, ref: CommandRef, code: Status,
                  subackCodes: Option<nat>): seq<Completion>
  {
    if InPool(ref, |commands|) && commands[ref.index].callback
    then completions + [Completion(commands[ref.index].context, code, subackCodes)]
    else completions
  }

  /** The pSubackCodes an acknowledgment's callback receives: two bytes into the
      remaining data (past the packet identifier) for SUBACK and UNSUBACK, NULL
      for PUBACK and PUBCOMP. */
  function SubackCodes(p: IncomingPacket): Option<nat> {
    if p.packetType == PACKET_TYPE_SUBACK || p.packetType == PACKET_TYPE_UNSUBACK then Some(p.remainingData + 2) else None
  }

  predicate IsAckType(packetType: bv8) {
    packetType == PACKET_TYPE_PUBACK || packetType == PACKET_TYPE_PUBCOMP
    || packetType == PACKET_TYPE_SUBACK || packetType == PACKET_TYPE_UNSUBACK
  }

  /** Acknowledgments carry non-zero uint16_t packet identifiers
      (MQTT 3.1.1 section 2.3.1). */
  predicate WellFormedPacket(p: IncomingPacket) {
    IsAckType(p.packetType) ==> PACKET_ID_INVALID < p.packetId <= MAX_PACKET_ID
  }

  predicate WellFormedPasses(incoming: seq<Pass>) {
    forall i :: 0 <= i < |incoming| && incoming[i].packet.Some? ==> WellFormedPacket(incoming[i].packet.value)
  }

  /** handleSubscriptionAcks: the subscribing command's callback gets the
      deserialisation result and the command goes back to the pool. */
  function SubscriptionAck(s: Snapshot, commands: seq<Command>, ack: AckInfo, code: Status, remainingData: nat): Snapshot
  {
    Snapshot(s.acks, Release(s.available, ack.originalCommand).1,
             Notify(s.completions, commands, ack.originalCommand, code, Some(remainingData + 2)), s.published)
  }

  /** mqttEventCallback, apart from setting packetProcessedDuringLoop. */
  function Event(s: Snapshot, commands: seq<Command>, p: IncomingPacket): Snapshot
  {
    if IsPublishType(p.packetType) then
      s.(published := s.published + [p.packetId])
    else if p.packetType == PACKET_TYPE_PUBACK || p.packetType == PACKET_TYPE_PUBCOMP then
      var (found, acks) := GetAwaiting(s.acks, p.packetId, true);
      var completions :=
        if found.packetId == p.packetId then Notify(s.completions, commands, found.originalCommand, p.deserializationResult, None)
        else s.completions;
      Snapshot(acks, Release(s.available, found.originalCommand).1, completions, s.published)
    else if p.packetType == PACKET_TYPE_SUBACK || p.packetType == PACKET_TYPE_UNSUBACK then
      var (found, acks) := GetAwaiting(s.acks, p.packetId, true);
      if found.packetId == p.packetId then SubscriptionAck(s.(acks := acks), commands, found, p.deserializationResult, p.remainingData)
      else s.(acks := acks)
    else
      s
  }

  /** A PUBACK or PUBCOMP for a tracked packet invalidates the lowest entry with
      that id, calls the command's callback (if any) with the deserialisation
      result and gives the command's slot back to the pool; nothing else
      changes. A SUBACK or UNSUBACK does the same, and its callback also
      receives the pointer to the SUBACK return codes. */
  lemma AckCompletesTrackedCommand(s: Snapshot, commands: seq<Command>, p: IncomingPacket)
    requires IsAckType(p.packetType) && WellFormedPacket(p)
    requires FindAck(s.acks, p.packetId) < |s.acks|
    ensures var k := FindAck(s.acks, p.packetId);
            var ref := s.acks[k].originalCommand;
            Event(s, commands, p) ==
              Snapshot(s.acks[k := s.acks[k].(packetId := PACKET_ID_INVALID)],
                       Release(s.available, ref).1,
                       Notify(s.completions, commands, ref, p.deserializationResult, SubackCodes(p)),
                       s.published)
  {
  }

  /** An acknowledgment with no tracked packet changes nothing: the release
      that PUBACK and PUBCOMP still make is of a NULL pointer, which fails. */
  lemma UnmatchedAckChangesNothing(s: Snapshot, commands: seq<Command>, p: IncomingPacket)
    requires IsAckType(p.packetType) && WellFormedPacket(p)
    requires forall i :: 0 <= i < |s.acks| ==> s.acks[i].packetId != p.packetId
    ensures Event(s, commands, p) == s
    ensures Release(s.available, GetAwaiting(s.acks, p.packetId, true).0.originalCommand) == (false, s.available)
  {
  }

  /** PUBREC, PUBREL and PINGRESP, and packet types the agent does not know,
      leave the table, the pool and the callbacks untouched. */
  lemma OtherPacketsChangeNothing(s: Snapshot, commands: seq<Command>, p: IncomingPacket)
    requires !IsPublishType(p.packetType) && !IsAckType(p.packetType)
    ensures Event(s, commands, p) == s
  {
  }

  /** An incoming PUBLISH, whatever its DUP, QoS and RETAIN bits, goes to the
      incoming-publish callback and changes nothing else. */
  lemma PublishIsDelivered(s: Snapshot, commands: seq<Command>, p: IncomingPacket, flags: bv8)
    requires p.packetType == PACKET_TYPE_PUBLISH | (flags & 0x0F)
    ensures Event(s, commands, p) == s.(published := s.published + [p.packetId])
  {
    assert IsPublishType(p.packetType);
  }

  /** The event callback keeps the table invariant. */
  lemma EventKeepsTableInvariant(s: Snapshot, commands: seq<Command>, p: IncomingPacket)
    requires TableInvariant(s.acks, |commands|, true)
    ensures TableInvariant(Event(s, commands, p).acks, |commands|, true)
    ensures |Event(s, commands, p).available| == |s.available|
  {
  }

  // ---------------------------------------------------------------------------
  // The drain at the end of processCommand

  /** The outcome of the drain: status, state, MQTT_ProcessLoop calls made and
      the passes left pending. */
  datatype AgentDrain = AgentDrain(status: Status, state: Snapshot, calls: nat, rest: seq<Pass>)

  /** The do-while at the end of processCommand: each pass clears
      packetProcessedDuringLoop, calls MQTT_ProcessLoop while the status is
      MQTTSuccess and the connection is up, and the event callback run for a
      received packet sets the flag again. */
  function DrainEvents(connected: bool, status: Status, s: Snapshot, commands: seq<Command>, incoming: seq<Pass>): (r: AgentDrain)
    decreases |incoming|
  {
    if status == Success && connected then
      if incoming != [] && incoming[0].packet.Some? then
        var r := DrainEvents(connected, incoming[0].status, Event(s, commands, incoming[0].packet.value), commands, incoming[1..]);
        r.(calls := r.calls + 1)
      else
        AgentDrain(NextPass(incoming).0, s, 1, RestAfterPass(incoming))
    else
      AgentDrain(status, s, 0, incoming)
  }

  /** The monolithic agent's drain makes the same MQTT_ProcessLoop calls, ends
      with the same status and leaves the same passes as runProcessLoops of the
      command-function agent. */
  lemma {:induction false} DrainEventsAgreesWithDrain(connected: bool, status: Status, s: Snapshot, commands: seq<Command>, incoming: seq<Pass>)
    ensures var r := DrainEvents(connected, status, s, commands, incoming);
            var d := CF.Drain(connected, status, incoming);
            r.status == d.status && r.calls == d.calls && r.rest == d.rest
    decreases |incoming|
  {
    if status == Success && connected && incoming != [] && incoming[0].packet.Some? {
      DrainEventsAgreesWithDrain(connected, incoming[0].status, Event(s, commands, incoming[0].packet.value), commands, incoming[1..]);
    }
  }

  /** The drain keeps the table invariant and the number of pool slots. */
  lemma {:induction false} DrainEventsKeepsTableInvariant(connected: bool, status: Status, s: Snapshot, commands: seq<Command>, incoming: seq<Pass>)
    requires TableInvariant(s.acks, |commands|, true)
    ensures TableInvariant(DrainEvents(connected, status, s, commands, incoming).state.acks, |commands|, true)
    ensures |DrainEvents(connected, status, s, commands, incoming).state.available| == |s.available|
    decreases |incoming|
  {
    if status == Success && connected && incoming != [] && incoming[0].packet.Some? {
      var s1 := Event(s, commands, incoming[0].packet.value);
      EventKeepsTableInvariant(s, commands, incoming[0].packet.value);
      DrainEventsKeepsTableInvariant(connected, incoming[0].status, s1, commands, incoming[1..]);
    }
  }

  // ---------------------------------------------------------------------------
  // Command execution (processCommand)

  /** What processCommand dereferences in a command: the publish info of a
      PUBLISH and the connect arguments of a CONNECT. */
  predicate WellFormedCommand(c: Command) {
    (c.commandType == PublishCommand ==> c.args.PublishArgs?)
    && (c.commandType == ConnectCommand ==> c.args.ConnectArgs?)
  }

  /** The command's broker operation is acknowledged (MQTT 3.1.1 section 4.3
      for PUBLISH above QoS 0), so it takes a packet identifier. */
  predicate TakesPacketId(c: Command)
    requires WellFormedCommand(c)
  {
    (c.commandType == PublishCommand && c.args.qos != QoS0)
    || c.commandType == SubscribeCommand || c.commandType == UnsubscribeCommand
  }

  /** The switch of processCommand: the operation status, whether to track an
      acknowledgment, the packet identifier used and whether the drain may run. */
  datatype Executed = Executed(status: Status, addAck: bool, packetId: int, runLoops: bool)

  function Execute(c: Command, nextPacketId: int, reply: Status): Executed
    requires WellFormedCommand(c)
  {
    var packetId := if TakesPacketId(c) then nextPacketId else PACKET_ID_INVALID;
    match c.commandType
      case PublishCommand => Executed(reply, c.args.qos != QoS0 && reply == Success, packetId, true)
      case SubscribeCommand => Executed(reply, reply == Success, packetId, true)
      case UnsubscribeCommand => Executed(reply, reply == Success, packetId, true)
      case PingCommand => Executed(reply, false, packetId, true)
      case ConnectCommand => Executed(reply, false, packetId, true)
      case DisconnectCommand => Executed(reply, false, packetId, false)
      case TerminateCommand => Executed(Success, false, packetId, false)
      case _ => Executed(Success, false, packetId, true)
  }

  /** The engine call the switch makes. */
  function EngineCalls(c: Command, nextPacketId: int): seq<EngineCall>
    requires WellFormedCommand(c)
  {
    match c.commandType
      case PublishCommand => [PublishCall(if c.args.qos != QoS0 then nextPacketId else PACKET_ID_INVALID, c.args.dup)]
      case SubscribeCommand => [SubscribeCall(nextPacketId)]
      case UnsubscribeCommand => [UnsubscribeCall(nextPacketId)]
      case PingCommand => [PingCall]
      case ConnectCommand => [ConnectCall]
      case DisconnectCommand => [DisconnectCall]
      case _ => []
  }

  /** The connection state after the switch. */
  function ConnectionAfter(c: Command, reply: Status, connection: ConnectStatus): ConnectStatus
  {
    if c.commandType == ConnectCommand && reply == Success then Connected
    else if c.commandType == DisconnectCommand && reply == Success then NotConnected
    else connection
  }

  /** The engine's packet-identifier counter after the switch. */
  function PacketIdAfter(c: Command, nextPacketId: int): int
    requires WellFormedCommand(c)
    requires PACKET_ID_INVALID <= nextPacketId <= MAX_PACKET_ID
  {
    if TakesPacketId(c) then NextPacketId(nextPacketId) else nextPacketId
  }

  /** After the switch: track the acknowledgment, or, when nothing was tracked,
      complete the command (callback and release). A full table turns the
      status into MQTTNoMemory. */
  function Settle(s: Snapshot, commands: seq<Command>, ref: CommandRef, e: Executed): (Status, Snapshot)
  {
    var (added, acks) := if e.addAck then AddAwaiting(s.acks, e.packetId, ref) else (false, s.acks);
    if added then (e.status, s.(acks := acks))
    else
      var status := if e.addAck then NoMemory else e.status;
      (status, Snapshot(s.acks, Release(s.available, ref).1, Notify(s.completions, commands, ref, status, None), s.published))
  }

  /** The drain runs only when the status is MQTTSuccess and the command allows it. */
  function Finish(status: Status, runLoops: bool, connected: bool, s: Snapshot, commands: seq<Command>, incoming: seq<Pass>): AgentDrain
  {
    if status == Success && runLoops then DrainEvents(connected, Success, s, commands, incoming)
    else AgentDrain(status, s, 0, incoming)
  }

  /** The whole of processCommand. */
  datatype Processed = Processed(status: Status, state: Snapshot, connection: ConnectStatus,
                                 nextPacketId: int, calls: seq<EngineCall>, rest: seq<Pass>)

  predicate CommandReady(ref: CommandRef, commands: seq<Command>) {
    ref.PoolSlot? ==> ref.index < |commands| && WellFormedCommand(commands[ref.index])
  }

  function ProcessSpec(ref: CommandRef, commands: seq<Command>, connection: ConnectStatus, nextPacketId: int,
                       reply: Status, s: Snapshot, incoming: seq<Pass>): Processed
    requires CommandReady(ref, commands)
    requires PACKET_ID_INVALID <= nextPacketId <= MAX_PACKET_ID
  {
    if ref == NullCommand then
      var d := Finish(Success, true, connection == Connected, s, commands, incoming);
      Processed(d.status, d.state, connection, nextPacketId, ProcessLoopCalls(d.calls), d.rest)
    else
      var c := commands[ref.index];
      var e := Execute(c, nextPacketId, reply);
      var (status, s1) := Settle(s, commands, ref, e);
      var connection' := ConnectionAfter(c, reply, connection);
      var d := Finish(status, e.runLoops, connection' == Connected, s1, commands, incoming);
      Processed(d.status, d.state, connection', PacketIdAfter(c, nextPacketId),
                EngineCalls(c, nextPacketId) + ProcessLoopCalls(d.calls), d.rest)
  }

  /** An acknowledgment is tracked only for a PUBLISH above QoS 0, a SUBSCRIBE
      or an UNSUBSCRIBE whose send succeeded, and then exactly in the lowest
      free slot, with no callback and no release yet. */
  lemma AckTrackedOnlyForAcknowledgedSend(s: Snapshot, commands: seq<Command>, ref: CommandRef, c: Command, nextPacketId: int, reply: Status)
    requires WellFormedCommand(c)
    ensures var (status, s1) := Settle(s, commands, ref, Execute(c, nextPacketId, reply));
            && (s1.acks != s.acks ==> TakesPacketId(c) && reply == Success)
            && (TakesPacketId(c) && reply == Success && HasSpace(s.acks) ==>
                  && s1.acks == s.acks[FindAck(s.acks, PACKET_ID_INVALID) := AckInfo(nextPacketId, ref)]
                  && status == Success && s1.available == s.available && s1.completions == s.completions)
  {
  }

  /** A send that needs an acknowledgment but finds the table full completes
      with MQTTNoMemory: the callback gets that status and the command goes back
      to the pool. */
  lemma FullTableGivesNoMemory(s: Snapshot, commands: seq<Command>, ref: CommandRef, c: Command, nextPacketId: int, reply: Status)
    requires WellFormedCommand(c)
    requires TakesPacketId(c) && reply == Success && !HasSpace(s.acks)
    ensures Settle(s, commands, ref, Execute(c, nextPacketId, reply)) ==
            (NoMemory, Snapshot(s.acks, Release(s.available, ref).1, Notify(s.completions, commands, ref, NoMemory, None), s.published))
  {
  }

  /** Whenever no entry is added, the command's callback (if any) runs once
      with the operation status and its slot goes back to the pool. */
  lemma UntrackedCommandCompletesOnce(s: Snapshot, commands: seq<Command>, ref: CommandRef, c: Command, nextPacketId: int, reply: Status)
    requires WellFormedCommand(c) && InPool(ref, |commands|) && commands[ref.index] == c
    requires !(TakesPacketId(c) && reply == Success && HasSpace(s.acks))
    ensures var (status, s1) := Settle(s, commands, ref, Execute(c, nextPacketId, reply));
            && s1.acks == s.acks
            && s1.completions == s.completions + (if c.callback then [Completion(c.context, status, None)] else [])
            && s1.available == Release(s.available, ref).1
            && (status == NoMemory || status == Execute(c, nextPacketId, reply).status)
  {
  }

  /** No MQTT_ProcessLoop call follows a failed operation, a DISCONNECT or a
      TERMINATE, nor a command that leaves the connection down; the state is
      then the one the command itself left. */
  lemma NoDrainAfterFailureDisconnectOrTerminate(ref: CommandRef, commands: seq<Command>, connection: ConnectStatus,
                                                 nextPacketId: int, reply: Status, s: Snapshot, incoming: seq<Pass>)
    requires CommandReady(ref, commands) && ref.PoolSlot?
    requires PACKET_ID_INVALID <= nextPacketId <= MAX_PACKET_ID
    ensures var c := commands[ref.index];
            var (status, s1) := Settle(s, commands, ref, Execute(c, nextPacketId, reply));
            var p := ProcessSpec(ref, commands, connection, nextPacketId, reply, s, incoming);
            (status != Success || c.commandType in {DisconnectCommand, TerminateCommand}
              || ConnectionAfter(c, reply, connection) != Connected) ==>
              p.calls == EngineCalls(c, nextPacketId) && p.state == s1 && p.status == status && p.rest == incoming
  {
  }

  /** A drain that follows a successful command is the drain of the
      command-function agent: same calls, status and pending passes. */
  lemma DrainAfterSuccessMatchesRunProcessLoops(ref: CommandRef, commands: seq<Command>, connection: ConnectStatus,
                                                nextPacketId: int, reply: Status, s: Snapshot, incoming: seq<Pass>)
    requires CommandReady(ref, commands) && ref.PoolSlot?
    requires PACKET_ID_INVALID <= nextPacketId <= MAX_PACKET_ID
    ensures var c := commands[ref.index];
            var (status, s1) := Settle(s, commands, ref, Execute(c, nextPacketId, reply));
            var p := ProcessSpec(ref, commands, connection, nextPacketId, reply, s, incoming);
            var connected := ConnectionAfter(c, reply, connection) == Connected;
            (status == Success && c.commandType !in {DisconnectCommand, TerminateCommand}) ==>
              var d := CF.Drain(connected, Success, incoming);
              p.status == d.status && p.rest == d.rest && p.calls == EngineCalls(c, nextPacketId) + ProcessLoopCalls(d.calls)
  {
    var c := commands[ref.index];
    var (status, s1) := Settle(s, commands, ref, Execute(c, nextPacketId, reply));
    DrainEventsAgreesWithDrain(ConnectionAfter(c, reply, connection) == Connected, Success, s1, commands, incoming);
  }

  // ---------------------------------------------------------------------------
  // The command loop (MQTTAgent_CommandLoop)

  /** The loop returns after a failed command, a DISCONNECT or a TERMINATE. */
  predicate EndsLoop(commandType: CommandType, status: Status) {
    commandType == DisconnectCommand || commandType == TerminateCommand || status != Success
  }

  /** Everything one iteration of the loop reads and changes: the command
      queue, the agent's table, pool and logs, and the engine's state. */
  datatype LoopState = LoopState(queue: seq<CommandRef>, s: Snapshot, connection: ConnectStatus,
                                 nextPacketId: int, calls: seq<EngineCall>, incoming: seq<Pass>)

  /** What a run of the loop did: the type and status of each command
      processed, in order, and the state it returned in. */
  datatype LoopRun = LoopRun(processed: seq<CommandType>, statuses: seq<Status>, final: LoopState)

  /** Every queued command is in the pool and can be processed, and the
      packet-identifier counter is a uint16_t value. */
  predicate LoopReady(st: LoopState, commands: seq<Command>) {
    && QueueOk(st.queue, commands)
    && PACKET_ID_INVALID <= st.nextPacketId <= MAX_PACKET_ID
  }

  predicate QueueOk(queue: seq<CommandRef>, commands: seq<Command>) {
    queue == [] || (InPool(queue[0], |commands|) && WellFormedCommand(commands[queue[0].index]) && QueueOk(queue[1..], commands))
  }

  lemma QueueOkFromAll(queue: seq<CommandRef>, commands: seq<Command>)
    requires forall i :: 0 <= i < |queue| ==> InPool(queue[i], |commands|) && WellFormedCommand(commands[queue[i].index])
    ensures QueueOk(queue, commands)
  {
    if queue != [] {
      QueueOkFromAll(queue[1..], commands);
    }
  }

  /** xQueueReceive: the oldest queued command, or NULL on an empty queue. */
  function Dequeue(queue: seq<CommandRef>): (CommandRef, seq<CommandRef>)
  {
    if queue == [] then (NullCommand, []) else (queue[0], queue[1..])
  }

  /** Receiving shrinks the queue by exactly the command returned: none is lost
      or added, and an empty queue yields NULL and stays empty. */
  lemma DequeueKeepsEveryCommand(queue: seq<CommandRef>)
    ensures var (ref, rest) := Dequeue(queue);
            && |rest| == (if queue == [] then 0 else |queue| - 1)
            && (queue == [] ==> ref == NullCommand)
            && (queue != [] ==> multiset(queue) == multiset{ref} + multiset(rest))
  {
    if queue != [] {
      assert queue == [queue[0]] + queue[1..];
    }
  }

  /** The type the loop checks after processing: the command's own, or NONE
      for the NULL command. */
  function TypeOf(ref: CommandRef, commands: seq<Command>): CommandType {
    if ref.PoolSlot? && ref.index < |commands| then commands[ref.index].commandType else NoneCommand
  }

  /** One iteration: dequeue, process the command with the engine's reply. */
  function Step(st: LoopState, commands: seq<Command>, reply: Status): (r: (CommandType, Status, LoopState))
    requires LoopReady(st, commands)
    ensures LoopReady(r.2, commands)
    ensures r.0 == (if st.queue == [] then NoneCommand else commands[st.queue[0].index].commandType)
    ensures r.2.queue == if st.queue == [] then [] else st.queue[1..]
  {
    var (ref, queue) := Dequeue(st.queue);
    var p := ProcessSpec(ref, commands, st.connection, st.nextPacketId, reply, st.s, st.incoming);
    (TypeOf(ref, commands), p.status,
     LoopState(queue, p.state, p.connection, p.nextPacketId, st.calls + p.calls, p.rest))
  }

  /** MQTTAgent_CommandLoop with one engine reply per iteration: iterate until
      a step ends the loop or the replies run out. */
  function LoopSpec(st: LoopState, commands: seq<Command>, replies: seq<Status>): (r: LoopRun)
    requires LoopReady(st, commands)
    ensures |r.processed| == |r.statuses| <= |replies|
    ensures replies != [] ==> r.processed != []
    decreases |replies|
  {
    if replies == [] then LoopRun([], [], st)
    else
      var step := Step(st, commands, replies[0]);
      if EndsLoop(step.0, step.1) then LoopRun([step.0], [step.1], step.2)
      else
        var r := LoopSpec(step.2, commands, replies[1..]);
        LoopRun([step.0] + r.processed, [step.1] + r.statuses, r.final)
  }

  /** LoopSpec after one step whose outcome is known. */
  lemma LoopSpecAfterStep(st: LoopState, commands: seq<Command>, replies: seq<Status>,
                          t: CommandType, status: Status, st': LoopState)
    requires LoopReady(st, commands) && replies != []
    requires Step(st, commands, replies[0]) == (t, status, st')
    ensures LoopReady(st', commands)
    ensures EndsLoop(t, status) ==> LoopSpec(st, commands, replies) == LoopRun([t], [status], st')
    ensures !EndsLoop(t, status) ==>
              var r := LoopSpec(st', commands, replies[1..]);
              LoopSpec(st, commands, replies) == LoopRun([t] + r.processed, [status] + r.statuses, r.final)
  {
  }

  /** A trace of the loop: `states[j]` is the state before iteration j, which
      processed a command of type `processed[j]` with status `statuses[j]` by
      the step LoopSpec takes, leaving `states[j + 1]`. */
  predicate Traced(states: seq<LoopState>, commands: seq<Command>, replies: seq<Status>,
                   processed: seq<CommandType>, statuses: seq<Status>)
  {
    && |states| == |processed| + 1 && |processed| == |statuses| <= |replies|
    && (forall j :: 0 <= j < |states| ==> LoopReady(states[j], commands))
    && (forall j {:trigger Step(states[j], commands, replies[j])} :: 0 <= j < |processed| ==>
          Step(states[j], commands, replies[j]) == (processed[j], statuses[j], states[j + 1]))
  }

  /** A trace grows by the step from its last state. */
  lemma TraceExtends(states: seq<LoopState>, commands: seq<Command>, replies: seq<Status>,
                     processed: seq<CommandType>, statuses: seq<Status>, t: CommandType, status: Status, st': LoopState)
    requires Traced(states, commands, replies, processed, statuses) && |processed| < |replies|
    requires Step(states[|processed|], commands, replies[|processed|]) == (t, status, st')
    ensures Traced(states + [st'], commands, replies, processed + [t], statuses + [status])
  {
    var n := |processed|;
    var states', processed', statuses' := states + [st'], processed + [t], statuses + [status];
    forall j | 0 <= j < |states'|
      ensures LoopReady(states'[j], commands)
    {
      if j < |states| {
        assert states'[j] == states[j];
      }
    }
    forall j | 0 <= j < |processed'|
      ensures Step(states'[j], commands, replies[j]) == (processed'[j], statuses'[j], states'[j + 1])
    {
      if j < n {
        assert states'[j] == states[j] && states'[j + 1] == states[j + 1];
        assert processed'[j] == processed[j] && statuses'[j] == statuses[j];
      } else {
        assert states'[j] == states[n] && states'[j + 1] == st' && processed'[j] == t && statuses'[j] == status;
      }
    }
  }

  /** The iterations of a trace from the k-th on are the run LoopSpec
      describes from the k-th state, provided the trace stops where the loop
      stops (after the first step that ends the loop, or when the replies run
      out). */
  lemma {:induction false} TraceSuffixIsLoopSpec(states: seq<LoopState>, commands: seq<Command>, replies: seq<Status>,
                                                 processed: seq<CommandType>, statuses: seq<Status>, k: nat)
    requires Traced(states, commands, replies, processed, statuses)
    requires forall j :: 0 <= j < |processed| - 1 ==> !EndsLoop(processed[j], statuses[j])
    requires |processed| == |replies| || (processed != [] && EndsLoop(processed[|processed| - 1], statuses[|statuses| - 1]))
    requires k < |processed| || k == |processed| == |replies|
    ensures LoopSpec(states[k], commands, replies[k..]) == LoopRun(processed[k..], statuses[k..], states[|processed|])
    decreases |processed| - k
  {
    if k < |processed| {
      var t, status := processed[k], statuses[k];
      assert Step(states[k], commands, replies[k]) == (t, status, states[k + 1]);
      SliceCons(replies, k);
      SliceCons(processed, k);
      SliceCons(statuses, k);
      LoopSpecAfterStep(states[k], commands, replies[k..], t, status, states[k + 1]);
      if EndsLoop(t, status) {
        assert processed[k..] == [t] && statuses[k..] == [status];
      } else {
        TraceSuffixIsLoopSpec(states, commands, replies, processed, statuses, k + 1);
      }
    }
  }

  /** A suffix of a sequence is its first element before the rest. */
  lemma SliceCons<T>(s: seq<T>, k: nat)
    requires k < |s|
    ensures s[k..] == [s[k]] + s[k + 1..] && s[k..][0] == s[k] && s[k..][1..] == s[k + 1..]
  {
  }

  /** A trace that stops where the loop stops is the run LoopSpec describes. */
  lemma TraceIsLoopSpec(states: seq<LoopState>, commands: seq<Command>, replies: seq<Status>,
                        processed: seq<CommandType>, statuses: seq<Status>)
    requires Traced(states, commands, replies, processed, statuses)
    requires forall j :: 0 <= j < |processed| - 1 ==> !EndsLoop(processed[j], statuses[j])
    requires |processed| == |replies| || (processed != [] && EndsLoop(processed[|processed| - 1], statuses[|statuses| - 1]))
    ensures LoopSpec(states[0], commands, replies) == LoopRun(processed, statuses, states[|processed|])
  {
    TraceSuffixIsLoopSpec(states, commands, replies, processed, statuses, 0);
    assert replies[0..] == replies && processed[0..] == processed && statuses[0..] == statuses;
  }

  /** A trace that stops where the loop stops is LoopSpec's run from its first
      state: it took the queued commands in order, NULL once the queue was
      empty, and left the rest queued. */
  lemma TraceDequeuesInOrder(states: seq<LoopState>, commands: seq<Command>, replies: seq<Status>,
                             processed: seq<CommandType>, statuses: seq<Status>)
    requires Traced(states, commands, replies, processed, statuses)
    requires forall j :: 0 <= j < |processed| - 1 ==> !EndsLoop(processed[j], statuses[j])
    requires |processed| == |replies| || (processed != [] && EndsLoop(processed[|processed| - 1], statuses[|statuses| - 1]))
    ensures LoopReady(states[0], commands)
    ensures LoopSpec(states[0], commands, replies) == LoopRun(processed, statuses, states[|processed|])
    ensures forall j :: 0 <= j < |processed| ==>
              processed[j] == if j < |states[0].queue| then TypeOf(states[0].queue[j], commands) else NoneCommand
    ensures states[|processed|].queue == states[0].queue[Min(|processed|, |states[0].queue|)..]
  {
    TraceIsLoopSpec(states, commands, replies, processed, statuses);
    LoopDequeuesInOrder(states[0], commands, replies);
  }

  /** The loop takes commands from the queue in the order they were sent, one
      per iteration, and processes NULL (type NONE) once the queue is empty;
      what it has not taken is still queued. */
  lemma LoopDequeuesInOrder(st: LoopState, commands: seq<Command>, replies: seq<Status>)
    requires LoopReady(st, commands)
    ensures var r := LoopSpec(st, commands, replies);
            && |r.processed| == |r.statuses| <= |replies|
            && (forall j :: 0 <= j < |r.processed| ==>
                  r.processed[j] == if j < |st.queue| then TypeOf(st.queue[j], commands) else NoneCommand)
            && r.final.queue == st.queue[Min(|r.processed|, |st.queue|)..]
  {
    LoopProcessesQueueOrder(st, commands, replies);
    LoopLeavesRestQueued(st, commands, replies);
  }

  lemma {:induction false} LoopProcessesQueueOrder(st: LoopState, commands: seq<Command>, replies: seq<Status>)
    requires LoopReady(st, commands)
    ensures var r := LoopSpec(st, commands, replies);
            && |r.processed| == |r.statuses| <= |replies|
            && (forall j :: 0 <= j < |r.processed| ==>
                  r.processed[j] == if j < |st.queue| then TypeOf(st.queue[j], commands) else NoneCommand)
    decreases |replies|
  {
    if replies != [] {
      var (t, status, st') := Step(st, commands, replies[0]);
      LoopSpecAfterStep(st, commands, replies, t, status, st');
      if !EndsLoop(t, status) {
        LoopProcessesQueueOrder(st', commands, replies[1..]);
        var r' := LoopSpec(st', commands, replies[1..]);
        var r := LoopSpec(st, commands, replies);
        forall j | 0 <= j < |r.processed|
          ensures r.processed[j] == if j < |st.queue| then TypeOf(st.queue[j], commands) else NoneCommand
        {
          if j > 0 {
            assert r.processed[j] == r'.processed[j - 1];
            if st.queue != [] {
              assert j - 1 < |st'.queue| <==> j < |st.queue|;
              assert j < |st.queue| ==> st'.queue[j - 1] == st.queue[j];
            }
          }
        }
      }
    }
  }

  lemma {:induction false} LoopLeavesRestQueued(st: LoopState, commands: seq<Command>, replies: seq<Status>)
    requires LoopReady(st, commands)
    ensures var r := LoopSpec(st, commands, replies);
            r.final.queue == st.queue[Min(|r.processed|, |st.queue|)..]
    decreases |replies|
  {
    if replies != [] {
      var (t, status, st') := Step(st, commands, replies[0]);
      LoopSpecAfterStep(st, commands, replies, t, status, st');
      if !EndsLoop(t, status) {
        LoopLeavesRestQueued(st', commands, replies[1..]);
        var r' := LoopSpec(st', commands, replies[1..]);
        if st.queue != [] {
          assert st'.queue[Min(|r'.processed|, |st'.queue|)..] == st.queue[Min(1 + |r'.processed|, |st.queue|)..];
        }
      }
    }
  }

  /** The loop returns exactly after the first failed command, DISCONNECT or
      TERMINATE, or when the replies run out; each status is the one
      processCommand returns for that command in the state the earlier ones
      left (the definition of LoopSpec). */
  lemma LoopStopsAtFirstEnd(st: LoopState, commands: seq<Command>, replies: seq<Status>)
    requires LoopReady(st, commands)
    ensures var r := LoopSpec(st, commands, replies);
            && |r.processed| == |r.statuses|
            && (replies != [] ==> r.processed != [])
            && (forall j :: 0 <= j < |r.processed| - 1 ==> !EndsLoop(r.processed[j], r.statuses[j]))
            && (|r.processed| == |replies| || EndsLoop(r.processed[|r.processed| - 1], r.statuses[|r.statuses| - 1]))
  {
    LoopContinuesBeforeEnd(st, commands, replies);
    LoopEndsOrRunsOut(st, commands, replies);
  }

  lemma {:induction false} LoopContinuesBeforeEnd(st: LoopState, commands: seq<Command>, replies: seq<Status>)
    requires LoopReady(st, commands)
    ensures var r := LoopSpec(st, commands, replies);
            forall j :: 0 <= j < |r.processed| - 1 ==> !EndsLoop(r.processed[j], r.statuses[j])
    decreases |replies|
  {
    if replies != [] {
      var (t, status, st') := Step(st, commands, replies[0]);
      LoopSpecAfterStep(st, commands, replies, t, status, st');
      if !EndsLoop(t, status) {
        LoopContinuesBeforeEnd(st', commands, replies[1..]);
        var r' := LoopSpec(st', commands, replies[1..]);
        var r := LoopSpec(st, commands, replies);
        forall j | 0 <= j < |r.processed| - 1
          ensures !EndsLoop(r.processed[j], r.statuses[j])
        {
          if j > 0 {
            assert r.processed[j] == r'.processed[j - 1] && r.statuses[j] == r'.statuses[j - 1];
          }
        }
      }
    }
  }

  lemma {:induction false} LoopEndsOrRunsOut(st: LoopState, commands: seq<Command>, replies: seq<Status>)
    requires LoopReady(st, commands)
    ensures var r := LoopSpec(st, commands, replies);
            |r.processed| == |replies| || EndsLoop(r.processed[|r.processed| - 1], r.statuses[|r.statuses| - 1])
    decreases |replies|
  {
    if replies != [] {
      var (t, status, st') := Step(st, commands, replies[0]);
      LoopSpecAfterStep(st, commands, replies, t, status, st');
      if !EndsLoop(t, status) {
        LoopEndsOrRunsOut(st', commands, replies[1..]);
        var r' := LoopSpec(st', commands, replies[1..]);
        if r'.processed != [] {
          var r := LoopSpec(st, commands, replies);
          assert r.processed[|r.processed| - 1] == r'.processed[|r'.processed| - 1];
          assert r.statuses[|r.statuses| - 1] == r'.statuses[|r'.statuses| - 1];
        }
      }
    }
  }

  // ---------------------------------------------------------------------------
  // Session resumption (MQTTAgent_ResumeSession)

  /** The resend of publishes awaiting acknowledgment when the broker kept the
      session: for each packet id the engine reports (with the reply the engine
      gives to its re-publish), a tracked id is published again with DUP set;
      the first failed publish stops the resend. */
  function Resend(acks: seq<AckInfo>, resend: seq<int>, replies: seq<Status>): (Status, seq<EngineCall>)
    requires |replies| >= |resend|
  {
    if resend == [] then (Success, [])
    else if FindAck(acks, resend[0]) < |acks| then
      if replies[0] != Success then (replies[0], [PublishCall(resend[0], true)])
      else
        var (status, calls) := Resend(acks, resend[1..], replies[1..]);
        (status, [PublishCall(resend[0], true)] + calls)
    else
      Resend(acks, resend[1..], replies[1..])
  }

  /** Every reported id that the table tracks, re-published with DUP set, in
      the order reported: what a resend with no failed publish sends. */
  function TrackedRepublishes(acks: seq<AckInfo>, resend: seq<int>): (r: seq<EngineCall>)
    ensures |r| <= |resend|
    ensures forall j :: 0 <= j < |r| ==> r[j].PublishCall? && r[j].dup && FindAck(acks, r[j].packetId) < |acks|
  {
    if resend == [] then []
    else (if FindAck(acks, resend[0]) < |acks| then [PublishCall(resend[0], true)] else [])
         + TrackedRepublishes(acks, resend[1..])
  }

  /** The resend sends a prefix of the tracked re-publishes: only tracked ids,
      always with DUP set, in the order reported. */
  lemma {:induction false} ResendRepublishesOnlyTrackedIds(acks: seq<AckInfo>, resend: seq<int>, replies: seq<Status>)
    requires |replies| >= |resend|
    ensures var (status, calls) := Resend(acks, resend, replies);
            && calls <= TrackedRepublishes(acks, resend)
            && (forall j :: 0 <= j < |calls| ==>
                  calls[j].PublishCall? && calls[j].dup && FindAck(acks, calls[j].packetId) < |acks|)
  {
    if resend != [] {
      ResendRepublishesOnlyTrackedIds(acks, resend[1..], replies[1..]);
    }
  }

  /** A resend that fails returns the reply to a tracked id's re-publish, and
      that re-publish is the last call it sends. */
  lemma {:induction false} ResendFailureIsLastRepublishReply(acks: seq<AckInfo>, resend: seq<int>, replies: seq<Status>)
    requires |replies| >= |resend|
    ensures var (status, calls) := Resend(acks, resend, replies);
            status != Success ==>
              exists j :: 0 <= j < |resend| && FindAck(acks, resend[j]) < |acks| && replies[j] == status
                          && calls != [] && calls[|calls| - 1] == PublishCall(resend[j], true)
  {
    if resend != [] {
      var tail, tailReplies := resend[1..], replies[1..];
      ResendFailureIsLastRepublishReply(acks, tail, tailReplies);
      var (status, calls) := Resend(acks, tail, tailReplies);
      if status != Success && !(FindAck(acks, resend[0]) < |acks| && replies[0] != Success) {
        var j :| 0 <= j < |tail| && FindAck(acks, tail[j]) < |acks| && tailReplies[j] == status
                 && calls != [] && calls[|calls| - 1] == PublishCall(tail[j], true);
        assert resend[j + 1] == tail[j] && replies[j + 1] == tailReplies[j];
      }
    }
  }

  /** When every tracked id's re-publish succeeds, the resend sends all of
      them, in order, and returns MQTTSuccess. */
  lemma {:induction false} ResendWithoutFailureSendsAllTracked(acks: seq<AckInfo>, resend: seq<int>, replies: seq<Status>)
    requires |replies| >= |resend|
    requires forall j :: 0 <= j < |resend| && FindAck(acks, resend[j]) < |acks| ==> replies[j] == Success
    ensures Resend(acks, resend, replies) == (Success, TrackedRepublishes(acks, resend))
  {
    if resend != [] {
      var tail, tailReplies := resend[1..], replies[1..];
      forall j | 0 <= j < |tail| && FindAck(acks, tail[j]) < |acks|
        ensures tailReplies[j] == Success
      {
        assert resend[j + 1] == tail[j] && replies[j + 1] == tailReplies[j];
      }
      ResendWithoutFailureSendsAllTracked(acks, tail, tailReplies);
      if FindAck(acks, resend[0]) < |acks| {
        assert replies[0] == Success;
        assert Resend(acks, resend, replies).1 == [PublishCall(resend[0], true)] + TrackedRepublishes(acks, tail);
      } else {
        assert Resend(acks, resend, replies) == Resend(acks, tail, tailReplies);
        assert TrackedRepublishes(acks, resend) == [] + TrackedRepublishes(acks, tail);
        assert [] + TrackedRepublishes(acks, tail) == TrackedRepublishes(acks, tail);
      }
    }
  }

  /** The callbacks of the clean-session flush, in slot order: every occupied
      slot whose command has a callback gets MQTTBadResponse. */
  function FlushCompletions(acks: seq<AckInfo>, commands: seq<Command>): seq<Completion>
  {
    if acks == [] then []
    else
      var last := acks[|acks| - 1];
      FlushCompletions(acks[..|acks| - 1], commands)
        + (if last.packetId != PACKET_ID_INVALID then Notify([], commands, last.originalCommand, BadResponse, None) else [])
  }

  /** The table after the clean-session flush: each slot invalidated, its stale
      command pointer kept. */
  function Flushed(acks: seq<AckInfo>): seq<AckInfo>
  {
    seq(|acks|, i requires 0 <= i < |acks| => acks[i].(packetId := PACKET_ID_INVALID))
  }

  /** Slot i is occupied and its command has a completion callback. */
  predicate Cancelled(acks: seq<AckInfo>, commands: seq<Command>, i: nat)
    requires i < |acks|
  {
    acks[i].packetId != PACKET_ID_INVALID && InPool(acks[i].originalCommand, |commands|)
    && commands[acks[i].originalCommand.index].callback
  }

  /** The slots whose commands the flush calls back, in increasing order. */
  function CancelledSlots(acks: seq<AckInfo>, commands: seq<Command>): (slots: seq<nat>)
    ensures forall j :: 0 <= j < |slots| ==> slots[j] < |acks| && Cancelled(acks, commands, slots[j])
  {
    if acks == [] then []
    else
      var n := |acks| - 1;
      var front := acks[..n];
      assert forall i :: 0 <= i < n ==> front[i] == acks[i];
      CancelledSlots(front, commands) + (if Cancelled(acks, commands, n) then [n] else [])
  }

  /** CancelledSlots lists exactly the occupied slots with a callback, each
      once, in increasing order. */
  lemma {:induction false} CancelledSlotsAreExactlyTheCancelled(acks: seq<AckInfo>, commands: seq<Command>)
    ensures var slots := CancelledSlots(acks, commands);
            && (forall j, k :: 0 <= j < k < |slots| ==> slots[j] < slots[k])
            && (forall i :: 0 <= i < |acks| && Cancelled(acks, commands, i) ==> i in slots)
  {
    if acks != [] {
      var n := |acks| - 1;
      var front := acks[..n];
      CancelledSlotsAreExactlyTheCancelled(front, commands);
      assert forall i :: 0 <= i < n ==> front[i] == acks[i];
      assert forall i :: 0 <= i < n ==> Cancelled(acks, commands, i) == Cancelled(front, commands, i);
      assert CancelledSlots(acks, commands)
             == CancelledSlots(front, commands) + (if Cancelled(acks, commands, n) then [n] else []);
    }
  }

  /** After the flush every slot is free, and the callbacks made are, in slot
      order, one MQTTBadResponse to the context of each occupied slot's command
      that has a callback, and nothing else. */
  lemma FlushCancelsEveryPendingCommand(acks: seq<AckInfo>, commands: seq<Command>)
    ensures forall i :: 0 <= i < |Flushed(acks)| ==> Flushed(acks)[i].packetId == PACKET_ID_INVALID
    ensures |Flushed(acks)| == |acks| && HasSpace(Flushed(acks)) == (|acks| > 0)
    ensures var slots := CancelledSlots(acks, commands);
            && |FlushCompletions(acks, commands)| == |slots|
            && forall j :: 0 <= j < |slots| ==>
                 FlushCompletions(acks, commands)[j]
                 == Completion(commands[acks[slots[j]].originalCommand.index].context, BadResponse, None)
  {
    FlushCompletionsFollowSlots(acks, commands);
  }

  lemma {:induction false} FlushCompletionsFollowSlots(acks: seq<AckInfo>, commands: seq<Command>)
    ensures var slots := CancelledSlots(acks, commands);
            && |FlushCompletions(acks, commands)| == |slots|
            && forall j :: 0 <= j < |slots| ==>
                 FlushCompletions(acks, commands)[j]
                 == Completion(commands[acks[slots[j]].originalCommand.index].context, BadResponse, None)
  {
    if acks != [] {
      var n := |acks| - 1;
      var front := acks[..n];
      FlushCompletionsFollowSlots(front, commands);
      FlushLastSlot(acks, commands);
      var completions, slots := FlushCompletions(front, commands), CancelledSlots(front, commands);
      forall j | 0 <= j < |slots|
        ensures acks[slots[j]] == front[slots[j]]
      {
      }
    }
  }

  /** The flush of a table is the flush of all but its last slot, then that
      slot's callback if it has one. */
  lemma FlushLastSlot(acks: seq<AckInfo>, commands: seq<Command>)
    requires acks != []
    ensures var n := |acks| - 1;
            && FlushCompletions(acks, commands)
               == FlushCompletions(acks[..n], commands)
                  + (if Cancelled(acks, commands, n)
                     then [Completion(commands[acks[n].originalCommand.index].context, BadResponse, None)] else [])
            && CancelledSlots(acks, commands)
               == CancelledSlots(acks[..n], commands) + (if Cancelled(acks, commands, n) then [n] else [])
  {
  }
}
