/** The monolithic MQTT agent (freertos_mqtt_agent.c) as it works on its state:
    the pending-acknowledgment array written in place, the event callback that
    completes tracked commands, the drain, command execution, command creation
    and queuing, the command loop and session resumption. Each method is proved
    against the value-level functions of module AgentSpec. */
module FreertosMqttAgent {
  import opened MqttTypes
  import opened CoreMqtt
  import opened AgentCommandPool
  import opened AgentSpec

  /** MQTTAgentContext_t, together with the state the agent shares with the rest
      of the program: the command-structure pool (a global of
      agent_command_pool.c), the packetProcessedDuringLoop flag (a file-level
      static), and the calls the agent makes into application callbacks. */
  class MqttAgentContext {
    const mqttContext: MqttContext
    /** pPendingAcks */
    const pendingAcks: array<AckInfo>
    const pool: CommandPool
    /** commandQueue: whether one is attached, what it holds and how much it can hold. */
    var hasQueue: bool
    var commandQueue: seq<CommandRef>
    const queueCapacity: nat
    /** Completion callbacks made so far, oldest first. */
    var completions: seq<Completion>
    /** Packet identifiers handed to pIncomingCallback so far, oldest first. */
    var published: seq<int>
    var packetProcessedDuringLoop: bool

    ghost predicate Valid()
      reads this, mqttContext, pool, pendingAcks
    {
      && mqttContext.Valid()
      && pool.Valid()
      && TableInvariant(pendingAcks[..], pool.commands.Length, pool.initStatus == SemaphoresInitialized)
      && WellFormedPasses(mqttContext.incoming)
    }

    /** Every queued pointer is to a command structure of the (initialised)
        pool that processCommand can run. */
    ghost predicate QueueReady()
      reads this, pool, pool.commands
    {
      forall i :: 0 <= i < |commandQueue| ==>
        InPool(commandQueue[i], pool.commands.Length) && pool.initStatus == SemaphoresInitialized
        && WellFormedCommand(pool.commands[commandQueue[i].index])
    }

    function Snap(): Snapshot
      reads this, pendingAcks, pool, pool.available
    {
      Snapshot(pendingAcks[..], pool.available[..], completions, published)
    }

    /** The state MQTTAgent_CommandLoop reads and changes. */
    ghost function LoopStateOf(): LoopState
      reads this, mqttContext, pendingAcks, pool, pool.available
    {
      LoopState(commandQueue, Snap(), mqttContext.connectStatus, mqttContext.nextPacketId,
                mqttContext.calls, mqttContext.incoming)
    }

    /** MQTTAgent_Init with a zeroed table and no pending commands. */
    constructor (mqttContext: MqttContext, maxOutstandingAcks: nat, pool: CommandPool, hasQueue: bool, queueCapacity: nat)
      requires mqttContext.Valid() && pool.Valid() && WellFormedPasses(mqttContext.incoming)
      ensures Valid() && fresh(pendingAcks)
      ensures this.mqttContext == mqttContext && this.pool == pool
      ensures pendingAcks.Length == maxOutstandingAcks
      ensures forall i :: 0 <= i < maxOutstandingAcks ==> pendingAcks[i] == ZeroAck
      ensures this.hasQueue == hasQueue && commandQueue == [] && this.queueCapacity == queueCapacity
      ensures completions == [] && published == [] && !packetProcessedDuringLoop
    {
      this.mqttContext := mqttContext;
      pendingAcks := new AckInfo[maxOutstandingAcks](_ => ZeroAck);
      this.pool := pool;
      this.hasQueue := hasQueue;
      commandQueue := [];
      this.queueCapacity := queueCapacity;
      completions := [];
      published := [];
      packetProcessedDuringLoop := false;
    }

    // -------------------------------------------------------------------------
    // The pending-acknowledgment table

    /** addAwaitingOperation: first-fit insert into the table. */
    method AddAwaitingOperation(packetId: int, ref: CommandRef) returns (ackAdded: bool)
      requires Valid()
      requires InPool(ref, pool.commands.Length) && pool.initStatus == SemaphoresInitialized
      modifies pendingAcks
      ensures Valid()
      ensures (ackAdded, pendingAcks[..]) == AddAwaiting(old(pendingAcks[..]), packetId, ref)
    {
      ackAdded := false;
      var i := 0;
      while i < pendingAcks.Length
        invariant 0 <= i <= pendingAcks.Length
        invariant forall j :: 0 <= j < i ==> pendingAcks[j].packetId != PACKET_ID_INVALID
        invariant pendingAcks[..] == old(pendingAcks[..])
      {
        if pendingAcks[i].packetId == PACKET_ID_INVALID {
          pendingAcks[i] := AckInfo(packetId, ref);
          ackAdded := true;
          break;
        }
        i := i + 1;
      }
      FindAckAt(old(pendingAcks[..]), PACKET_ID_INVALID, i);
    }

    /** getAwaitingOperation: lookup by packet identifier, optionally
        invalidating the entry found. */
    method GetAwaitingOperation(incomingPacketId: int, remove: bool) returns (foundAck: AckInfo)
      requires Valid()
      modifies pendingAcks
      ensures Valid()
      ensures (foundAck, pendingAcks[..]) == GetAwaiting(old(pendingAcks[..]), incomingPacketId, remove)
    {
      foundAck := ZeroAck;
      var i := 0;
      while i < pendingAcks.Length
        invariant 0 <= i <= pendingAcks.Length
        invariant forall j :: 0 <= j < i ==> pendingAcks[j].packetId != incomingPacketId
        invariant pendingAcks[..] == old(pendingAcks[..])
        invariant foundAck == ZeroAck
      {
        if pendingAcks[i].packetId == incomingPacketId {
          foundAck := pendingAcks[i];
          if remove {
            pendingAcks[i] := pendingAcks[i].(packetId := PACKET_ID_INVALID);
          }
          break;
        }
        i := i + 1;
      }
      FindAckAt(old(pendingAcks[..]), incomingPacketId, i);
    }

    // -------------------------------------------------------------------------
    // Acknowledgment dispatch

    /** handleSubscriptionAcks. */
    method HandleSubscriptionAcks(ackInfo: AckInfo, code: Status, remainingData: nat)
      requires Valid()
      requires InPool(ackInfo.originalCommand, pool.commands.Length) && pool.initStatus == SemaphoresInitialized
      modifies this, pool.available
      ensures Valid()
      ensures Snap() == SubscriptionAck(old(Snap()), pool.commands[..], ackInfo, code, remainingData)
      ensures packetProcessedDuringLoop == old(packetProcessedDuringLoop)
      ensures hasQueue == old(hasQueue) && commandQueue == old(commandQueue)
    {
      var command := pool.commands[ackInfo.originalCommand.index];
      if command.callback {
        completions := completions + [Completion(command.context, code, Some(remainingData + 2))];
      }
      var _ := pool.ReleaseCommand(ackInfo.originalCommand);
    }

    /** mqttEventCallback: runs inside MQTT_ProcessLoop for every packet it
        dispatches. */
    method EventCallback(packet: IncomingPacket)
      requires Valid() && WellFormedPacket(packet)
      modifies this, pendingAcks, pool.available
      ensures Valid()
      ensures Snap() == Event(old(Snap()), pool.commands[..], packet)
      ensures packetProcessedDuringLoop
      ensures hasQueue == old(hasQueue) && commandQueue == old(commandQueue)
    {
      packetProcessedDuringLoop := true;
      if packet.packetType & UPPER_NIBBLE == PACKET_TYPE_PUBLISH {
        published := published + [packet.packetId];
      } else if packet.packetType == PACKET_TYPE_PUBACK || packet.packetType == PACKET_TYPE_PUBCOMP {
        var ackInfo := GetAwaitingOperation(packet.packetId, true);
        if ackInfo.packetId == packet.packetId {
          var command := pool.commands[ackInfo.originalCommand.index];
          if command.callback {
            completions := completions + [Completion(command.context, packet.deserializationResult, None)];
          }
        }
        var _ := pool.ReleaseCommand(ackInfo.originalCommand);
      } else if packet.packetType == PACKET_TYPE_SUBACK || packet.packetType == PACKET_TYPE_UNSUBACK {
        var ackInfo := GetAwaitingOperation(packet.packetId, true);
        if ackInfo.packetId == packet.packetId {
          HandleSubscriptionAcks(ackInfo, packet.deserializationResult, packet.remainingData);
        }
      }
    }

    // -------------------------------------------------------------------------
    // The drain

    /** The do-while at the end of processCommand, entered with MQTTSuccess. */
    method ProcessLoops() returns (operationStatus: Status)
      requires Valid()
      modifies this, mqttContext, pendingAcks, pool.available
      ensures Valid()
      ensures var d := DrainEvents(old(mqttContext.connectStatus) == Connected, Success, old(Snap()),
                                   pool.commands[..], old(mqttContext.incoming));
              && operationStatus == d.status && Snap() == d.state
              && mqttContext.incoming == d.rest
              && mqttContext.calls == old(mqttContext.calls) + ProcessLoopCalls(d.calls)
      ensures !packetProcessedDuringLoop
      ensures mqttContext.connectStatus == old(mqttContext.connectStatus)
      ensures mqttContext.nextPacketId == old(mqttContext.nextPacketId)
      ensures mqttContext.networkBufferSize == old(mqttContext.networkBufferSize)
      ensures hasQueue == old(hasQueue) && commandQueue == old(commandQueue)
    {
      ghost var connected := mqttContext.connectStatus == Connected;
      ghost var commands := pool.commands[..];
      ghost var total := DrainEvents(connected, Success, Snap(), commands, mqttContext.incoming);
      ghost var n: nat := 0;
      operationStatus := Success;
      while true
        invariant Valid()
        invariant mqttContext.connectStatus == old(mqttContext.connectStatus)
        invariant mqttContext.nextPacketId == old(mqttContext.nextPacketId)
        invariant mqttContext.networkBufferSize == old(mqttContext.networkBufferSize)
        invariant hasQueue == old(hasQueue) && commandQueue == old(commandQueue)
        invariant mqttContext.calls == old(mqttContext.calls) + ProcessLoopCalls(n)
        invariant total == DrainAfter(n, DrainEvents(connected, operationStatus, Snap(), commands, mqttContext.incoming))
        decreases |mqttContext.incoming|
      {
        packetProcessedDuringLoop := false;
        if operationStatus == Success && mqttContext.connectStatus == Connected {
          ghost var before := mqttContext.incoming;
          var packet;
          operationStatus, packet := mqttContext.ProcessLoop();
          n := n + 1;
          if packet.Some? {
            assert before[0].packet.Some? && WellFormedPacket(before[0].packet.value);
            EventCallback(packet.value);
          }
        }
        if !packetProcessedDuringLoop {
          break;
        }
      }
    }

    // -------------------------------------------------------------------------
    // Command execution

    /** The switch of processCommand: one engine call chosen by the command's
        type; `reply` is the status the engine returns for it. */
    method ExecuteCommand(command: Command, reply: Status) returns (e: Executed)
      requires Valid() && WellFormedCommand(command)
      modifies mqttContext
      ensures Valid()
      ensures e == Execute(command, old(mqttContext.nextPacketId), reply)
      ensures mqttContext.calls == old(mqttContext.calls) + EngineCalls(command, old(mqttContext.nextPacketId))
      ensures mqttContext.connectStatus == ConnectionAfter(command, reply, old(mqttContext.connectStatus))
      ensures mqttContext.nextPacketId == PacketIdAfter(command, old(mqttContext.nextPacketId))
      ensures mqttContext.incoming == old(mqttContext.incoming)
      ensures mqttContext.networkBufferSize == old(mqttContext.networkBufferSize)
    {
      var operationStatus := Success;
      var packetId := PACKET_ID_INVALID;
      var addAckToList := false;
      var runProcessLoops := true;
      match command.commandType {
        case PublishCommand =>
          operationStatus, packetId := SendPublish(command.args, reply);
          addAckToList := command.args.qos != QoS0 && operationStatus == Success;
        case SubscribeCommand =>
          operationStatus, packetId := SendSubscription(true, reply);
          addAckToList := operationStatus == Success;
        case UnsubscribeCommand =>
          operationStatus, packetId := SendSubscription(false, reply);
          addAckToList := operationStatus == Success;
        case _ =>
          operationStatus, runProcessLoops := SendControl(command, reply);
      }
      e := Executed(operationStatus, addAckToList, packetId, runProcessLoops);
    }

    /** The cases of the switch that take no packet identifier and track no
        acknowledgment: PING, CONNECT, DISCONNECT, TERMINATE and the rest. */
    method SendControl(command: Command, reply: Status) returns (operationStatus: Status, runProcessLoops: bool)
      requires Valid() && WellFormedCommand(command)
      requires !TakesPacketId(command) && command.commandType != PublishCommand
      modifies mqttContext
      ensures Valid()
      ensures Executed(operationStatus, false, PACKET_ID_INVALID, runProcessLoops)
              == Execute(command, old(mqttContext.nextPacketId), reply)
      ensures mqttContext.calls == old(mqttContext.calls) + EngineCalls(command, old(mqttContext.nextPacketId))
      ensures mqttContext.connectStatus == ConnectionAfter(command, reply, old(mqttContext.connectStatus))
      ensures mqttContext.nextPacketId == old(mqttContext.nextPacketId)
      ensures mqttContext.incoming == old(mqttContext.incoming)
      ensures mqttContext.networkBufferSize == old(mqttContext.networkBufferSize)
    {
      operationStatus, runProcessLoops := Success, true;
      match command.commandType {
        case PingCommand =>
          operationStatus := mqttContext.Ping(reply);
        case ConnectCommand =>
          // The session-present flag goes to the caller's connect arguments.
          var sessionPresent;
          operationStatus, sessionPresent := mqttContext.Connect(reply, false);
        case DisconnectCommand =>
          operationStatus := mqttContext.Disconnect(reply);
          runProcessLoops := false;
        case TerminateCommand =>
          runProcessLoops := false;
        case _ =>
      }
    }

    /** The PUBLISH case of the switch: a packet identifier is taken only
        above QoS 0 (MQTT 3.1.1 section 4.3); otherwise MQTT_PACKET_ID_INVALID is
        sent. */
    method SendPublish(args: Args, reply: Status) returns (operationStatus: Status, packetId: int)
      requires Valid() && args.PublishArgs?
      modifies mqttContext
      ensures Valid()
      ensures operationStatus == reply
      ensures packetId == if args.qos != QoS0 then old(mqttContext.nextPacketId) else PACKET_ID_INVALID
      ensures mqttContext.calls == old(mqttContext.calls) + [PublishCall(packetId, args.dup)]
      ensures mqttContext.nextPacketId
              == if args.qos != QoS0 then NextPacketId(old(mqttContext.nextPacketId)) else old(mqttContext.nextPacketId)
      ensures mqttContext.connectStatus == old(mqttContext.connectStatus)
      ensures mqttContext.incoming == old(mqttContext.incoming)
      ensures mqttContext.networkBufferSize == old(mqttContext.networkBufferSize)
    {
      packetId := PACKET_ID_INVALID;
      if args.qos != QoS0 {
        packetId := mqttContext.GetPacketId();
      }
      operationStatus := mqttContext.Publish(packetId, args.dup, reply);
    }

    /** The SUBSCRIBE and UNSUBSCRIBE cases of the switch: both always take a
        packet identifier. */
    method SendSubscription(subscribe: bool, reply: Status) returns (operationStatus: Status, packetId: int)
      requires Valid()
      modifies mqttContext
      ensures Valid()
      ensures operationStatus == reply && packetId == old(mqttContext.nextPacketId)
      ensures mqttContext.calls
              == old(mqttContext.calls) + [if subscribe then SubscribeCall(packetId) else UnsubscribeCall(packetId)]
      ensures mqttContext.nextPacketId == NextPacketId(old(mqttContext.nextPacketId))
      ensures mqttContext.connectStatus == old(mqttContext.connectStatus)
      ensures mqttContext.incoming == old(mqttContext.incoming)
      ensures mqttContext.networkBufferSize == old(mqttContext.networkBufferSize)
    {
      packetId := mqttContext.GetPacketId();
      if subscribe {
        operationStatus := mqttContext.Subscribe(packetId, reply);
      } else {
        operationStatus := mqttContext.Unsubscribe(packetId, reply);
      }
    }

    /** processCommand: runs the command (NULL when the queue was empty), tracks
        its acknowledgment or completes it, then drains. `reply` is the engine's
        status for the command's call. */
    method ProcessCommand(ref: CommandRef, reply: Status) returns (operationStatus: Status)
      requires Valid() && CommandReady(ref, pool.commands[..])
      requires ref.PoolSlot? ==> pool.initStatus == SemaphoresInitialized
      modifies this, mqttContext, pendingAcks, pool.available
      ensures Valid()
      ensures var p := ProcessSpec(ref, pool.commands[..], old(mqttContext.connectStatus), old(mqttContext.nextPacketId),
                                   reply, old(Snap()), old(mqttContext.incoming));
              && operationStatus == p.status && Snap() == p.state
              && mqttContext.connectStatus == p.connection && mqttContext.nextPacketId == p.nextPacketId
              && mqttContext.calls == old(mqttContext.calls) + p.calls && mqttContext.incoming == p.rest
      ensures mqttContext.networkBufferSize == old(mqttContext.networkBufferSize)
      ensures hasQueue == old(hasQueue) && commandQueue == old(commandQueue)
    {
      operationStatus := Success;
      var runProcessLoops := true;
      if ref.PoolSlot? {
        var command := pool.commands[ref.index];
        var e := ExecuteCommand(command, reply);
        runProcessLoops := e.runLoops;
        operationStatus := SettleCommand(ref, e);
      }
      runProcessLoops := if operationStatus != Success then false else runProcessLoops;
      if runProcessLoops {
        operationStatus := ProcessLoops();
      }
    }

    /** The part of processCommand after the switch: track the acknowledgment,
        or call the callback and release the command. */
    method SettleCommand(ref: CommandRef, e: Executed) returns (operationStatus: Status)
      requires Valid() && InPool(ref, pool.commands.Length) && pool.initStatus == SemaphoresInitialized
      modifies this, pendingAcks, pool.available
      ensures Valid()
      ensures (operationStatus, Snap()) == Settle(old(Snap()), pool.commands[..], ref, e)
      ensures hasQueue == old(hasQueue) && commandQueue == old(commandQueue)
      ensures packetProcessedDuringLoop == old(packetProcessedDuringLoop)
    {
      var command := pool.commands[ref.index];
      operationStatus := e.status;
      var ackAdded := false;
      if e.addAck {
        ackAdded := AddAwaitingOperation(e.packetId, ref);
        if !ackAdded {
          operationStatus := NoMemory;
        }
      }
      if !ackAdded {
        if command.callback {
          completions := completions + [Completion(command.context, operationStatus, None)];
        }
        var _ := pool.ReleaseCommand(ref);
      }
    }

    // -------------------------------------------------------------------------
    // Creating and queuing commands

    /** addCommandToQueue: a non-blocking push onto the command queue; with no
        other task popping, a full queue stays full for the whole wait. */
    method AddCommandToQueue(ref: CommandRef) returns (statusReturn: Status)
      modifies this
      ensures statusReturn == if !hasQueue then IllegalState
                              else if |old(commandQueue)| < queueCapacity then Success
                              else SendFailed
      ensures commandQueue == if statusReturn == Success then old(commandQueue) + [ref] else old(commandQueue)
      ensures hasQueue == old(hasQueue) && completions == old(completions) && published == old(published)
      ensures packetProcessedDuringLoop == old(packetProcessedDuringLoop)
    {
      statusReturn := IllegalState;
      if hasQueue {
        var queueStatus := |commandQueue| < queueCapacity;
        if queueStatus {
          commandQueue := commandQueue + [ref];
        }
        statusReturn := if queueStatus then Success else SendFailed;
      }
    }

    /** createAndAddCommand: obtains a command structure, fills it in and
        queues it; on a validation or queuing failure the structure goes back to
        the pool. Nothing happens, and MQTTSuccess is returned, while the MQTT
        context's packet-identifier counter is still 0. */
    method CreateAndAddCommand(commandType: CommandType, args: Args, callback: bool, context: nat, blockTimeMs: nat)
      returns (statusReturn: Status)
      requires Valid() && ArgsFit(commandType, args)
      modifies this, pool, pool.commands, pool.available
      ensures Valid()
      ensures hasQueue == old(hasQueue) && completions == old(completions) && published == old(published)
      ensures packetProcessedDuringLoop == old(packetProcessedDuringLoop)
      ensures old(mqttContext.nextPacketId) == PACKET_ID_INVALID ==>
                && statusReturn == Success && commandQueue == old(commandQueue)
                && pool.initStatus == old(pool.initStatus)
                && pool.available[..] == old(pool.available[..]) && pool.commands[..] == old(pool.commands[..])
      ensures old(mqttContext.nextPacketId) != PACKET_ID_INVALID ==>
                var free := if old(pool.initStatus) == SemaphoresNotInitialized then AllFree(pool.available.Length)
                            else old(pool.available[..]);
                var k := FirstAvailable(free);
                var obtained := pool.initStatus == SemaphoresInitialized && k < |free|;
                var verdict := Validate(commandType, args, true, HasSpace(pendingAcks[..]), mqttContext.networkBufferSize);
                && pool.initStatus == (if old(pool.initStatus) == SemaphoresNotInitialized then SemaphoresInitialized else old(pool.initStatus))
                && (!obtained ==> statusReturn == NoMemory && commandQueue == old(commandQueue))
                && (obtained ==> statusReturn == (if verdict != Success then verdict
                                                  else if !hasQueue then IllegalState
                                                  else if |old(commandQueue)| < queueCapacity then Success
                                                  else SendFailed))
                && (obtained && statusReturn == Success ==>
                      && commandQueue == old(commandQueue) + [PoolSlot(k)]
                      && pool.available[..] == free[k := false]
                      && pool.commands[k] == Command(commandType, args, callback, context))
                && (statusReturn != Success ==> commandQueue == old(commandQueue) && pool.available[..] == free)
      ensures old(mqttContext.nextPacketId) != PACKET_ID_INVALID ==>
                var free := if old(pool.initStatus) == SemaphoresNotInitialized then AllFree(pool.available.Length)
                            else old(pool.available[..]);
                var k := FirstAvailable(free);
                var obtained := pool.initStatus == SemaphoresInitialized && k < |free|;
                var verdict := Validate(commandType, args, true, HasSpace(pendingAcks[..]), mqttContext.networkBufferSize);
                && (forall i :: 0 <= i < pool.commands.Length && !(obtained && i == k) ==>
                      pool.commands[i] == if old(pool.initStatus) == SemaphoresNotInitialized then ZeroCommand else old(pool.commands[i]))
                && (obtained ==>
                      pool.commands[k] == if verdict == Success then Command(commandType, args, callback, context) else ZeroCommand)
    {
      statusReturn := Success;
      if mqttContext.nextPacketId != PACKET_ID_INVALID {
        var ref;
        ghost var attempts;
        ref, attempts := pool.AgentGetCommand(blockTimeMs);
        if ref != NullCommand {
          ghost var free := if old(pool.initStatus) == SemaphoresNotInitialized then AllFree(pool.available.Length)
                            else old(pool.available[..]);
          assert free[ref.index := false][ref.index := true] == free;
          statusReturn := FillAndQueue(ref, commandType, args, callback, context);
        } else {
          statusReturn := NoMemory;
        }
      }
    }

    /** The rest of createAndAddCommand once a command structure was obtained:
        createCommand fills it in, a valid command is queued, and on either
        failure the structure is given back to the pool. */
    method FillAndQueue(ref: CommandRef, commandType: CommandType, args: Args, callback: bool, context: nat)
      returns (statusReturn: Status)
      requires Valid() && ArgsFit(commandType, args)
      requires InPool(ref, pool.commands.Length) && pool.initStatus == SemaphoresInitialized
      modifies this, pool.commands, pool.available
      ensures Valid()
      ensures hasQueue == old(hasQueue) && completions == old(completions) && published == old(published)
      ensures packetProcessedDuringLoop == old(packetProcessedDuringLoop)
      ensures var verdict := Validate(commandType, args, true, HasSpace(pendingAcks[..]), mqttContext.networkBufferSize);
              && statusReturn == (if verdict != Success then verdict
                                  else if !hasQueue then IllegalState
                                  else if |old(commandQueue)| < queueCapacity then Success
                                  else SendFailed)
              && pool.commands[..] == old(pool.commands[..])[ref.index := if verdict == Success then Command(commandType, args, callback, context)
                                                                          else ZeroCommand]
      ensures statusReturn == Success ==> commandQueue == old(commandQueue) + [ref] && pool.available[..] == old(pool.available[..])
      ensures statusReturn != Success ==> commandQueue == old(commandQueue) && pool.available[..] == old(pool.available[..])[ref.index := true]
    {
      statusReturn := CreateCommand(commandType, this, args, callback, context, pool.commands, ref.index);
      if statusReturn == Success {
        statusReturn := AddCommandToQueue(ref);
      }
      if statusReturn != Success {
        var _ := pool.ReleaseCommand(ref);
      }
    }

    // -------------------------------------------------------------------------
    // Session resumption

    /** The resend loop of MQTTAgent_ResumeSession: `resend` lists the packet
        identifiers MQTT_PublishToResend reports before it reports
        MQTT_PACKET_ID_INVALID, and replies[i] is the engine's status for the
        re-publish of resend[i]. */
    method ResendPublishes(resend: seq<int>, replies: seq<Status>) returns (statusResult: Status)
      requires Valid() && |replies| >= |resend|
      requires forall i :: 0 <= i < |resend| ==> PACKET_ID_INVALID < resend[i] <= MAX_PACKET_ID
      modifies mqttContext, pendingAcks
      ensures Valid()
      ensures var (status, calls) := Resend(old(pendingAcks[..]), resend, replies);
              statusResult == status && mqttContext.calls == old(mqttContext.calls) + calls
      ensures pendingAcks[..] == old(pendingAcks[..])
      ensures mqttContext.connectStatus == old(mqttContext.connectStatus)
      ensures mqttContext.nextPacketId == old(mqttContext.nextPacketId)
      ensures mqttContext.incoming == old(mqttContext.incoming)
      ensures commandQueue == old(commandQueue) && published == old(published)
    {
      ghost var acks := pendingAcks[..];
      ghost var sent: seq<EngineCall> := [];
      statusResult := Success;
      var i := 0;
      assert resend[0..] == resend && replies[0..] == replies;
      while i < |resend|
        invariant 0 <= i <= |resend|
        invariant Valid() && pendingAcks[..] == acks
        invariant statusResult == Success
        invariant mqttContext.calls == old(mqttContext.calls) + sent
        invariant Resend(acks, resend, replies).0 == Resend(acks, resend[i..], replies[i..]).0
        invariant Resend(acks, resend, replies).1 == sent + Resend(acks, resend[i..], replies[i..]).1
        invariant mqttContext.connectStatus == old(mqttContext.connectStatus)
        invariant mqttContext.nextPacketId == old(mqttContext.nextPacketId)
        invariant mqttContext.incoming == old(mqttContext.incoming)
      {
        assert resend[i..][1..] == resend[i + 1..] && replies[i..][1..] == replies[i + 1..];
        ghost var later := Resend(acks, resend[i + 1..], replies[i + 1..]);
        var foundAck := GetAwaitingOperation(resend[i], false);
        if foundAck.packetId == resend[i] {
          // The original PUBLISH goes out again with its DUP flag set.
          statusResult := mqttContext.Publish(resend[i], true, replies[i]);
          assert statusResult == Success ==>
                 Resend(acks, resend[i..], replies[i..]).1 == [PublishCall(resend[i], true)] + later.1;
          sent := sent + [PublishCall(resend[i], true)];
          if statusResult != Success {
            break;
          }
        }
        i := i + 1;
      }
    }

    /** The clean-session branch of MQTTAgent_ResumeSession: every pending
        command's callback gets MQTTBadResponse and its entry is removed. The
        command structures are not given back to the pool. */
    method FlushPendingAcks()
      requires Valid()
      modifies this, pendingAcks
      ensures Valid()
      ensures pendingAcks[..] == Flushed(old(pendingAcks[..]))
      ensures completions == old(completions) + FlushCompletions(old(pendingAcks[..]), pool.commands[..])
      ensures published == old(published) && hasQueue == old(hasQueue) && commandQueue == old(commandQueue)
      ensures packetProcessedDuringLoop == old(packetProcessedDuringLoop)
    {
      ghost var acks := pendingAcks[..];
      var i := 0;
      while i < pendingAcks.Length
        invariant 0 <= i <= pendingAcks.Length
        invariant Valid()
        invariant forall j :: 0 <= j < i ==> pendingAcks[j] == acks[j].(packetId := PACKET_ID_INVALID)
        invariant forall j :: i <= j < pendingAcks.Length ==> pendingAcks[j] == acks[j]
        invariant completions == old(completions) + FlushCompletions(acks[..i], pool.commands[..])
        invariant published == old(published) && hasQueue == old(hasQueue) && commandQueue == old(commandQueue)
        invariant packetProcessedDuringLoop == old(packetProcessedDuringLoop)
      {
        assert acks[..i + 1][..i] == acks[..i];
        FlushSlot(i);
        i := i + 1;
      }
      assert acks[..pendingAcks.Length] == acks;
      assert pendingAcks[..] == Flushed(acks);
    }

    /** One slot of the flush: an occupied slot's command is called back with
        MQTTBadResponse and the slot is freed through getAwaitingOperation,
        which finds it first because every earlier slot is already free. */
    method FlushSlot(i: nat)
      requires Valid() && i < pendingAcks.Length
      requires forall j :: 0 <= j < i ==> pendingAcks[j].packetId == PACKET_ID_INVALID
      modifies this, pendingAcks
      ensures Valid()
      ensures pendingAcks[..] == old(pendingAcks[..])[i := old(pendingAcks[i]).(packetId := PACKET_ID_INVALID)]
      ensures completions
              == old(completions)
                 + if old(pendingAcks[i]).packetId != PACKET_ID_INVALID
                   then Notify([], pool.commands[..], old(pendingAcks[i]).originalCommand, BadResponse, None)
                   else []
      ensures published == old(published) && hasQueue == old(hasQueue) && commandQueue == old(commandQueue)
      ensures packetProcessedDuringLoop == old(packetProcessedDuringLoop)
    {
      if pendingAcks[i].packetId != PACKET_ID_INVALID {
        var command := pool.commands[pendingAcks[i].originalCommand.index];
        if command.callback {
          completions := completions + [Completion(command.context, BadResponse, None)];
        }
        FindAckAt(pendingAcks[..], pendingAcks[i].packetId, i);
        var _ := GetAwaitingOperation(pendingAcks[i].packetId, true);
      } else {
        assert pendingAcks[..] == old(pendingAcks[..])[i := old(pendingAcks[i]).(packetId := PACKET_ID_INVALID)];
      }
    }
  }

  /** `d` preceded by `n` MQTT_ProcessLoop calls that each dispatched a packet:
      the agent's counterpart of MqttAgentCommandFunctions.After, on the drain
      record that also carries the agent's state. */
  function DrainAfter(n: nat, d: AgentDrain): AgentDrain
  {
    d.(calls := n + d.calls)
  }

  /** isSpaceInPendingAckList. */
  method IsSpaceInPendingAckList(agent: MqttAgentContext?) returns (spaceFound: bool)
    ensures spaceFound == (agent != null && HasSpace(agent.pendingAcks[..]))
  {
    spaceFound := false;
    if agent != null {
      var i := 0;
      while i < agent.pendingAcks.Length
        invariant 0 <= i <= agent.pendingAcks.Length
        invariant forall j :: 0 <= j < i ==> agent.pendingAcks[j].packetId != PACKET_ID_INVALID
        invariant !spaceFound
      {
        if agent.pendingAcks[i].packetId == PACKET_ID_INVALID {
          spaceFound := true;
          break;
        }
        i := i + 1;
      }
      FindAckAt(agent.pendingAcks[..], PACKET_ID_INVALID, i);
    }
  }

  /** createCommand: zeroes the command structure, validates the request and
      fills the structure in only when it is valid. */
  method CreateCommand(commandType: CommandType, agent: MqttAgentContext?, args: Args, callback: bool, context: nat,
                       commands: array<Command>, index: nat) returns (statusReturn: Status)
    requires index < commands.Length && ArgsFit(commandType, args)
    modifies commands
    ensures statusReturn == Validate(commandType, args, agent != null, agent != null && HasSpace(agent.pendingAcks[..]),
                                     if agent != null then agent.mqttContext.networkBufferSize else 0)
    ensures commands[..] == old(commands[..])[index := if statusReturn == Success then Command(commandType, args, callback, context)
                                                       else ZeroCommand]
  {
    var isValid := false;
    var isSpace := true;
    commands[index] := ZeroCommand;
    match commandType {
      case SubscribeCommand =>
        isSpace := IsSpaceInPendingAckList(agent);
        isValid := !args.NoArgs? && agent != null && isSpace;
      case UnsubscribeCommand =>
        isSpace := IsSpaceInPendingAckList(agent);
        isValid := agent != null && !args.NoArgs? && isSpace;
      case PublishCommand =>
        if args.NoArgs? {
          isValid := false;
        } else {
          var headerBytes := CONTROL_AND_LENGTH_BYTES + args.topicNameLength;
          if args.qos != QoS0 {
            isSpace := IsSpaceInPendingAckList(agent);
          }
          isValid := agent != null
                     && (args.payloadLength + headerBytes) % SIZE_T_MODULUS < agent.mqttContext.networkBufferSize
                     && isSpace;
        }
      case ProcessLoopCommand =>
        isValid := agent != null;
      case PingCommand =>
        isValid := agent != null;
      case ConnectCommand =>
        isValid := agent != null;
      case DisconnectCommand =>
        isValid := agent != null;
      case _ =>
        isValid := true;
    }
    if isValid {
      commands[index] := Command(commandType, args, callback, context);
    }
    statusReturn := if isValid then Success else BadParameter;
    if statusReturn == BadParameter && !isSpace {
      statusReturn := NoMemory;
    }
  }

  /** MQTTAgent_CommandLoop, for as many iterations as there are engine
      replies: pops a command (NULL when the queue is empty), processes it with
      the next reply, and returns after a failure, a DISCONNECT or a TERMINATE.
      `processed` and `statuses` record each iteration's command type and
      status; the run is the one LoopSpec describes. */
  method CommandLoop(agent: MqttAgentContext?, replies: seq<Status>)
    returns (operationStatus: Status, ghost processed: seq<CommandType>, ghost statuses: seq<Status>)
    requires agent != null ==> agent.Valid() && agent.hasQueue && agent.QueueReady()
    modifies if agent != null then {agent, agent.mqttContext, agent.pendingAcks, agent.pool.available} else {}
    ensures agent == null ==> operationStatus == BadParameter && processed == []
    ensures agent != null ==> agent.Valid()
    ensures |processed| == |statuses| <= |replies|
    ensures forall j :: 0 <= j < |processed| - 1 ==> !EndsLoop(processed[j], statuses[j])
    ensures agent != null ==> operationStatus == if processed == [] then Success else statuses[|statuses| - 1]
    ensures agent != null && |processed| < |replies| ==>
              processed != [] && EndsLoop(processed[|processed| - 1], statuses[|statuses| - 1])
    ensures agent != null ==>
              && LoopReady(old(agent.LoopStateOf()), agent.pool.commands[..])
              && LoopSpec(old(agent.LoopStateOf()), agent.pool.commands[..], replies) == LoopRun(processed, statuses, agent.LoopStateOf())
    ensures agent != null ==>
              var q := old(agent.commandQueue);
              && (forall j :: 0 <= j < |processed| ==>
                    processed[j] == if j < |q| then TypeOf(q[j], agent.pool.commands[..]) else NoneCommand)
              && agent.commandQueue == q[Min(|processed|, |q|)..]
  {
    processed, statuses := [], [];
    if agent == null {
      operationStatus := BadParameter;
      return;
    }
    ghost var commands := agent.pool.commands[..];
    ghost var start := agent.LoopStateOf();
    ghost var states;
    operationStatus, processed, statuses, states := ProcessQueue(agent, replies, commands, start);
    TraceDequeuesInOrder(states, commands, replies, processed, statuses);
  }

  /** The loop of MQTTAgent_CommandLoop: one command (or NULL) per reply, until
      a command ends the loop or the replies run out; `states` traces the
      state before and after each iteration. */
  method ProcessQueue(agent: MqttAgentContext, replies: seq<Status>, ghost commands: seq<Command>, ghost start: LoopState)
    returns (operationStatus: Status, ghost processed: seq<CommandType>, ghost statuses: seq<Status>,
             ghost states: seq<LoopState>)
    requires agent.Valid() && agent.hasQueue && agent.QueueReady()
    requires commands == agent.pool.commands[..] && start == agent.LoopStateOf()
    modifies agent, agent.mqttContext, agent.pendingAcks, agent.pool.available
    ensures agent.Valid() && commands == agent.pool.commands[..]
    ensures Traced(states, commands, replies, processed, statuses)
    ensures states[0] == start && states[|processed|] == agent.LoopStateOf()
    ensures forall j :: 0 <= j < |processed| - 1 ==> !EndsLoop(processed[j], statuses[j])
    ensures |processed| == |replies| || (processed != [] && EndsLoop(processed[|processed| - 1], statuses[|statuses| - 1]))
    ensures operationStatus == if processed == [] then Success else statuses[|statuses| - 1]
  {
    processed, statuses, states := [], [], [start];
    operationStatus := Success;
    var i := 0;
    QueueOkFromAll(start.queue, commands);
    while operationStatus == Success && i < |replies|
      invariant agent.Valid() && agent.hasQueue && (agent.commandQueue != [] ==> agent.pool.initStatus == SemaphoresInitialized)
      invariant commands == agent.pool.commands[..]
      invariant i == |processed| && Traced(states, commands, replies, processed, statuses)
      invariant states[0] == start && states[i] == agent.LoopStateOf()
      invariant operationStatus == Success && forall j :: 0 <= j < i ==> !EndsLoop(processed[j], statuses[j])
      decreases |replies| - i
    {
      var currentCommandType;
      ghost var after;
      currentCommandType, operationStatus, after := ReceiveAndProcess(agent, replies, i, commands, states[i]);
      TraceExtends(states, commands, replies, processed, statuses, currentCommandType, operationStatus, after);
      processed, statuses, states := processed + [currentCommandType], statuses + [operationStatus], states + [after];
      i := i + 1;
      if currentCommandType == DisconnectCommand || operationStatus != Success {
        break;
      }
      if currentCommandType == TerminateCommand {
        break;
      }
    }
  }

  /** One iteration of MQTTAgent_CommandLoop before its exit test: receive a
      command without blocking (NULL on an empty queue) and process it; this is
      the step LoopSpec takes from the state before. */
  method ReceiveAndProcess(agent: MqttAgentContext, replies: seq<Status>, i: nat, ghost commands: seq<Command>,
                           ghost before: LoopState)
    returns (currentCommandType: CommandType, operationStatus: Status, ghost after: LoopState)
    requires agent.Valid() && agent.hasQueue && i < |replies|
    requires agent.commandQueue != [] ==> agent.pool.initStatus == SemaphoresInitialized
    requires commands == agent.pool.commands[..] && before == agent.LoopStateOf() && LoopReady(before, commands)
    modifies agent, agent.mqttContext, agent.pendingAcks, agent.pool.available
    ensures agent.Valid() && agent.hasQueue && commands == agent.pool.commands[..]
    ensures agent.commandQueue != [] ==> agent.pool.initStatus == SemaphoresInitialized
    ensures after == agent.LoopStateOf() && Step(before, commands, replies[i]) == (currentCommandType, operationStatus, after)
  {
    var reply := replies[i];
    var command := NullCommand;
    if agent.commandQueue != [] {
      command := agent.commandQueue[0];
      agent.commandQueue := agent.commandQueue[1..];
    }
    currentCommandType := if command.PoolSlot? then agent.pool.commands[command.index].commandType else NoneCommand;
    operationStatus := agent.ProcessCommand(command, reply);
    after := agent.LoopStateOf();
  }

  /** MQTTAgent_ResumeSession. */
  method ResumeSession(agent: MqttAgentContext?, sessionPresent: bool, resend: seq<int>, replies: seq<Status>)
    returns (statusResult: Status)
    requires agent != null ==> agent.Valid()
    requires |replies| >= |resend|
    requires forall i :: 0 <= i < |resend| ==> PACKET_ID_INVALID < resend[i] <= MAX_PACKET_ID
    modifies if agent != null then {agent, agent.mqttContext, agent.pendingAcks} else {}
    ensures agent == null ==> statusResult == IllegalState
    ensures agent != null ==> agent.Valid() && agent.pool.available[..] == old(agent.pool.available[..])
    ensures agent != null ==>
              && agent.commandQueue == old(agent.commandQueue) && agent.published == old(agent.published)
              && agent.hasQueue == old(agent.hasQueue) && agent.packetProcessedDuringLoop == old(agent.packetProcessedDuringLoop)
              && agent.mqttContext.nextPacketId == old(agent.mqttContext.nextPacketId)
              && agent.mqttContext.connectStatus == old(agent.mqttContext.connectStatus)
              && agent.mqttContext.incoming == old(agent.mqttContext.incoming)
    ensures agent != null && old(agent.mqttContext.nextPacketId) == PACKET_ID_INVALID ==>
              && statusResult == IllegalState && agent.pendingAcks[..] == old(agent.pendingAcks[..])
              && agent.completions == old(agent.completions) && agent.mqttContext.calls == old(agent.mqttContext.calls)
    ensures agent != null && old(agent.mqttContext.nextPacketId) != PACKET_ID_INVALID && sessionPresent ==>
              var (status, calls) := Resend(old(agent.pendingAcks[..]), resend, replies);
              && statusResult == status && agent.mqttContext.calls == old(agent.mqttContext.calls) + calls
              && agent.pendingAcks[..] == old(agent.pendingAcks[..]) && agent.completions == old(agent.completions)
    ensures agent != null && old(agent.mqttContext.nextPacketId) != PACKET_ID_INVALID && !sessionPresent ==>
              && statusResult == Success
              && agent.pendingAcks[..] == Flushed(old(agent.pendingAcks[..]))
              && agent.completions == old(agent.completions) + FlushCompletions(old(agent.pendingAcks[..]), agent.pool.commands[..])
              && agent.mqttContext.calls == old(agent.mqttContext.calls)
  {
    statusResult := Success;
    if agent != null && agent.mqttContext.nextPacketId != PACKET_ID_INVALID {
      if sessionPresent {
        statusResult := agent.ResendPublishes(resend, replies);
      } else {
        agent.FlushPendingAcks();
      }
    } else {
      statusResult := IllegalState;
    }
  }
}
