# MQTT agent: a Dafny model

This project models the decision layer of the FreeRTOS coreMQTT agent. The
agent is one task that owns an MQTT connection. Other tasks hand it commands
(publish, subscribe, unsubscribe, ping, connect, disconnect, process-loop,
terminate). It runs each command against the coreMQTT engine and drains the
packets the broker sends back. For each operation the broker must acknowledge,
it keeps the operation in a table until the acknowledgment arrives. The model
has three parts:

- **Command handlers.** These come from `mqtt_agent_command_functions.c`. Each
  `MQTTAgentCommand_*` handler calls the engine and overwrites the caller's
  return flags (`addAcknowledgment`, `packetId`, `endLoop`).
  - `runProcessLoops` calls `MQTT_ProcessLoop` again while the previous call
    dispatched a packet.
  - `Terminate` cancels every queued command.
- **The monolithic agent.** This is `freertos_mqtt_agent.c`.
  - The pending-acknowledgment table `pPendingAcks`. A slot whose `packetId`
    is 0 is free. The table has first-fit insert, and lookup and removal by
    packet identifier.
  - Command validation (`createCommand`), command creation and queuing
    (`createAndAddCommand`), and command execution (`processCommand`) with its
    drain.
  - Acknowledgment dispatch in the engine's event callback.
  - The exit rule of `MQTTAgent_CommandLoop`, and `MQTTAgent_ResumeSession`.
- **The command-structure pool.** This is `agent_command_pool.c`: a static
  array of command structures, each guarded by a binary semaphore. The model
  treats it as a first-fit allocator with one `available` flag per slot.

The coreMQTT engine is abstract (module `CoreMqtt`).
- Each call returns the status the engine chooses; it is a parameter of the
  model.
- Every call is recorded in a log of `EngineCall`s.
- `MQTT_GetPacketId` hands out a 16-bit counter that skips 0
  (section 2.3.1 of MQTT 3.1.1).
- `MQTT_ProcessLoop` consumes the next entry of a finite sequence of pending
  passes, each with the packet it dispatches (if any) and its status.

Completion callbacks are modelled as a log of
`Completion(context, code, subackCodes)`; the last is the pSubackCodes
address, or None for NULL.
Incoming publishes handed to `pIncomingCallback` are a log of packet
identifiers.

Layout, one module per file:

- `mqtt_types.dfy` (`MqttTypes`): statuses, command types, arguments,
  commands, pool pointers, acknowledgment records, packet-type constants of
  section 2.2.1 of MQTT 3.1.1.
- `core_mqtt.dfy` (`CoreMqtt`): the abstract engine.
- `command_functions.dfy` (`MqttAgentCommandFunctions`): the handlers,
  `runProcessLoops` and `Terminate`, each proved against the function
  `Drain` and the `Cancellations` log.
- `command_pool.dfy` (`AgentCommandPool`): the pool, with methods over arrays
  proved against `FirstAvailable` and `Release`.
- `agent_spec.dfy` (`AgentSpec`): value-level functions for the table,
  validation, event dispatch, the drain, `processCommand` and session resume,
  and the lemmas about them.
- `freertos_mqtt_agent.dfy` (`FreertosMqttAgent`): the agent context as a
  class. Its methods work in place on the table and the pool, and each is
  proved against the `AgentSpec` function it implements.

Behaviour kept exactly as written:

- **Flags cleared after the send.** Publish, Subscribe and Unsubscribe clear
  the flags after the send, so the returned `packetId` is always 0.
- **Stale id on QoS 0.** A QoS 0 publish is sent with whatever `packetId` the
  caller left in the flags.
- **No packet id yet.** `createAndAddCommand` returns `MQTTSuccess` without
  doing anything while the engine's packet-identifier counter is 0.
- **Unmatched PUBACK.** A PUBACK or PUBCOMP that matches nothing still calls
  `Agent_ReleaseCommand`. The pointer is NULL there, so the release fails and
  nothing changes.
- **Clean-session flush.** The flush gives no command structure back to the
  pool.
- **Size check in `size_t`.** The publish size check is computed in 32-bit
  `size_t` and can wrap.
- **Double cancellation in `Terminate`.** See "## Findings".
- **CONNECT without arguments.** createCommand accepts a CONNECT whose
  connect arguments are NULL. See "## Findings".

## Model

| member | source | states |
|---|---|---|
| MqttAgentCommandFunctions.RunProcessLoops | lib/FreeRTOS/mqtt-agent/mqtt_agent_command_functions.c:45-64 | The status, the ProcessLoop calls made and the passes left are those of `Drain`. Each round clears the flag. The engine is called only while the status is Success and the context is connected. Packet id counter and connection are unchanged. |
| MqttAgentCommandFunctions.Drain | lib/FreeRTOS/mqtt-agent/mqtt_agent_command_functions.c:52-61 | On a context that is not connected, or after a failure, there is no engine call and the entry status is returned. At most one call per pending pass plus one. |
| MqttAgentCommandFunctions.StopIndex | lib/FreeRTOS/mqtt-agent/mqtt_agent_command_functions.c:52-61 | Independent definition of where the drain stops: every earlier pass dispatched a packet and succeeded, and the pass at the index did not. |
| MqttAgentCommandFunctions.DrainStopsAtFirstQuietOrFailedPass | lib/FreeRTOS/mqtt-agent/mqtt_agent_command_functions.c:52-63 | A connected drain makes StopIndex + 1 calls, consumes exactly the passes up to the stopping one, and returns that pass's status, or Success if it ran out of passes. |
| MqttAgentCommandFunctions.DrainStatusIsFirstFailure | lib/FreeRTOS/mqtt-agent/mqtt_agent_command_functions.c:52-63 | The drain's result is Success or the first failing status, and every earlier pass succeeded. |
| MqttAgentCommandFunctions.DrainScenarioThreePasses | lib/FreeRTOS/mqtt-agent/mqtt_agent_command_functions.c:52-61 | Two passes that dispatch packets and then a quiet pass give exactly three ProcessLoop calls and Success. |
| MqttAgentCommandFunctions.ProcessLoop | lib/FreeRTOS/mqtt-agent/mqtt_agent_command_functions.c:70-80 | Flags all cleared. Returns the drain's result and nothing else changes. |
| MqttAgentCommandFunctions.Publish | lib/FreeRTOS/mqtt-agent/mqtt_agent_command_functions.c:84-122 | A packet id is taken only above QoS 0; QoS 0 sends the caller's stale packetId. addAcknowledgment == (qos != QoS0 && send ok && drain ok). A send failure is returned as is, with no drain. The returned packetId is 0 and endLoop is false. |
| MqttAgentCommandFunctions.Subscribe | lib/FreeRTOS/mqtt-agent/mqtt_agent_command_functions.c:126-160 | Always takes a packet id. addAcknowledgment == (send ok && drain ok). A drain failure becomes the result. The returned packetId is 0. |
| MqttAgentCommandFunctions.Unsubscribe | lib/FreeRTOS/mqtt-agent/mqtt_agent_command_functions.c:164-198 | As Subscribe, with MQTT_Unsubscribe. |
| MqttAgentCommandFunctions.Connect | lib/FreeRTOS/mqtt-agent/mqtt_agent_command_functions.c:202-224 | Returns the engine status as is. Writes sessionPresent back. Never drains. No flag set. |
| MqttAgentCommandFunctions.Disconnect | lib/FreeRTOS/mqtt-agent/mqtt_agent_command_functions.c:228-245 | endLoop is true whatever the engine returns. Never drains, and addAcknowledgment is false. |
| MqttAgentCommandFunctions.Ping | lib/FreeRTOS/mqtt-agent/mqtt_agent_command_functions.c:249-270 | Drains only after a successful ping and then returns the drain's status. No acknowledgment and no endLoop. |
| MqttAgentCommandFunctions.CancellationsAreBadResponses | lib/FreeRTOS/mqtt-agent/mqtt_agent_command_functions.c:284-305 | One cancellation per queued command with a callback, each carrying MQTTBadResponse. |
| MqttAgentCommandFunctions.MessageReceive | lib/FreeRTOS/mqtt-agent/mqtt_agent_command_functions.c:296-298 | A zero-wait receive pops the oldest command. On an empty queue it fails and leaves the out-parameter untouched. |
| MqttAgentCommandFunctions.CancelNext | lib/FreeRTOS/mqtt-agent/mqtt_agent_command_functions.c:296-304 | One pass of the drain: the receive's outcome and the queue are those of MessageReceive, and exactly the cancellation of whatever command the pointer then holds is appended (none when it is NULL). |
| MqttAgentCommandFunctions.Terminate | lib/FreeRTOS/mqtt-agent/mqtt_agent_command_functions.c:274-308 | Always returns Success with endLoop set and the queue empty. The callbacks are the cancellations of the queue plus one more for the last command (as written). |
| MqttAgentCommandFunctions.DrainAndCancel | lib/FreeRTOS/mqtt-agent/mqtt_agent_command_functions.c:294-305 | The do-while empties the queue; the callbacks are the cancellations of the queue in order plus one more for the last command, because the failed final receive leaves the pointer on it. |
| MqttAgentCommandFunctions.TerminateCallsLastCallbackTwice | lib/FreeRTOS/mqtt-agent/mqtt_agent_command_functions.c:294-305 | With N >= 1 queued commands that have callbacks, N + 1 callbacks run, and the last two both go to the last command. |
| MqttAgentCommandFunctions.AllCallbacksCounted | lib/FreeRTOS/mqtt-agent/mqtt_agent_command_functions.c:294-305 | When every queued command has a callback, the callback count is the queue length. |
| MqttAgentCommandFunctions.TerminateCorrected | lib/FreeRTOS/mqtt-agent/mqtt_agent_command_functions.c:274-308 | Terminate with the received pointer cleared before each receive: exactly the cancellations of the queue. |
| AgentCommandPool.FirstAvailable | lib/FreeRTOS/mqtt-agent/agent_command_pool.c:124-137 | The lowest-index free slot, or the pool size when none is free. |
| AgentCommandPool.AllFree | lib/FreeRTOS/mqtt-agent/agent_command_pool.c:106-130 | After initialisation gives every semaphore, getCommand's first scan takes slot 0. |
| AgentCommandPool.CommandPool.InitializePool | lib/FreeRTOS/mqtt-agent/agent_command_pool.c:84-115 | Acts only from NOT_INITIALIZED. Afterwards every slot is zeroed and available, and the status is INITIALIZED. Otherwise nothing changes. |
| AgentCommandPool.CommandPool.GetCommand | lib/FreeRTOS/mqtt-agent/agent_command_pool.c:119-138 | Takes and returns the lowest-index available slot. Returns NULL and changes nothing when every slot is taken. |
| AgentCommandPool.CommandPool.AgentGetCommand | lib/FreeRTOS/mqtt-agent/agent_command_pool.c:142-174 | Initialises the pool on first use. Returns the lowest free slot, taken, after one attempt; when none is free it returns NULL after exactly max(1, blockTimeMs) attempts, and the pool is unchanged. While initialisation is pending it returns NULL and changes nothing. |
| AgentCommandPool.CommandPool.ReleaseCommand | lib/FreeRTOS/mqtt-agent/agent_command_pool.c:178-199 | Result and semaphores are `Release`: false with nothing changed for NULL, an index beyond the pool, or a slot already free. |
| AgentCommandPool.ReleaseFreesOnlyThatSlot | lib/FreeRTOS/mqtt-agent/agent_command_pool.c:186-196 | Release succeeds iff the pointer is into the pool and the slot is taken. It frees exactly that slot and nothing else; otherwise nothing changes. |
| AgentCommandPool.TakeThenReleaseRestores | lib/FreeRTOS/mqtt-agent/agent_command_pool.c:126-189 | Taking the first free slot and then releasing it restores the pool. |
| AgentCommandPool.ReleaseOfFreeSlotFails | lib/FreeRTOS/mqtt-agent/agent_command_pool.c:189 | Releasing a slot that is already available fails and changes nothing (a binary semaphore given twice). |
| AgentSpec.FindAck | lib/FreeRTOS/freertos-plus-mqtt/freertos_mqtt_agent.c:328-387 | The lowest-index entry with the given packet id, or the table size when there is none. |
| AgentSpec.SpaceMeansSomeSlotIsFree | lib/FreeRTOS/freertos-plus-mqtt/freertos_mqtt_agent.c:300-324 | The table has space iff some slot has packet id MQTT_PACKET_ID_INVALID. |
| AgentSpec.AddAwaitingFillsLowestFreeSlot | lib/FreeRTOS/freertos-plus-mqtt/freertos_mqtt_agent.c:328-352 | Succeeds iff there is space. Fills only the lowest free slot. Returns false and leaves the table unchanged when none is free. |
| AgentSpec.GetAwaitingReturnsLowestMatch | lib/FreeRTOS/freertos-plus-mqtt/freertos_mqtt_agent.c:356-387 | Returns the lowest matching entry. With remove it invalidates only that slot. With no match it returns a zeroed record and the table is unchanged. |
| AgentSpec.TableOperationsKeepInvariant | lib/FreeRTOS/freertos-plus-mqtt/freertos_mqtt_agent.c:328-387 | Insert of a pool command and lookup/removal keep every occupied entry pointing into the pool. |
| AgentSpec.PublishValidation | lib/FreeRTOS/freertos-plus-mqtt/freertos_mqtt_agent.c:513-575 | A PUBLISH is accepted iff its info is present, the agent is present, it fits the buffer and (above QoS 0) the table has room. MQTTNoMemory exactly when it was refused for want of room. QoS 0 skips the space check. |
| AgentSpec.SubscriptionValidation | lib/FreeRTOS/freertos-plus-mqtt/freertos_mqtt_agent.c:489-575 | A SUBSCRIBE or UNSUBSCRIBE is accepted iff its info, the agent and room are all present. MQTTNoMemory iff there is no room (a missing agent counts as no room); MQTTBadParameter otherwise. |
| AgentSpec.OtherCommandValidation | lib/FreeRTOS/freertos-plus-mqtt/freertos_mqtt_agent.c:544-575 | PROCESSLOOP, PING, CONNECT and DISCONNECT are accepted iff the agent is present, else MQTTBadParameter. TERMINATE and NONE are always accepted. |
| AgentSpec.ConnectWithoutArgsIsAccepted | lib/FreeRTOS/freertos-plus-mqtt/freertos_mqtt_agent.c:544-548 | A CONNECT with NULL connect arguments passes validation although processCommand dereferences them (674-679). |
| AgentSpec.ValidateCorrected | lib/FreeRTOS/freertos-plus-mqtt/freertos_mqtt_agent.c:470-578 | A CONNECT is accepted only with its connect arguments and a PUBLISH only with its publish info. |
| AgentSpec.ValidateCorrectedAcceptsOnlyRunnable | lib/FreeRTOS/freertos-plus-mqtt/freertos_mqtt_agent.c:470-578 | Every command the corrected check accepts is one processCommand can run, and it differs from createCommand's verdict exactly for a CONNECT without arguments and with an agent. |
| AgentSpec.PublishFitsWithoutWrap | lib/FreeRTOS/freertos-plus-mqtt/freertos_mqtt_agent.c:524-540 | Without size_t overflow the check is payloadLength + topicNameLength + 4 < networkBuffer.size. |
| AgentSpec.PublishFitsWrapsForHugePayload | lib/FreeRTOS/freertos-plus-mqtt/freertos_mqtt_agent.c:524-540 | A payload of SIZE_MAX - 3 bytes makes the size_t sum wrap to 0, so the check passes for a 1-byte buffer. |
| AgentSpec.AckCompletesTrackedCommand | lib/FreeRTOS/freertos-plus-mqtt/freertos_mqtt_agent.c:917-953 | A PUBACK/PUBCOMP/SUBACK/UNSUBACK for a tracked id invalidates the lowest matching entry. The command's callback gets deserializationResult, with pSubackCodes two bytes into the remaining data for SUBACK/UNSUBACK and NULL for PUBACK/PUBCOMP, and its slot is released. Nothing else changes. |
| AgentSpec.UnmatchedAckChangesNothing | lib/FreeRTOS/freertos-plus-mqtt/freertos_mqtt_agent.c:917-953 | An acknowledgment matching no entry changes nothing. The PUBACK path still releases, but the pointer is NULL and the release fails. |
| AgentSpec.OtherPacketsChangeNothing | lib/FreeRTOS/freertos-plus-mqtt/freertos_mqtt_agent.c:956-971 | PUBREC, PUBREL, PINGRESP and unknown types leave the table, the pool and the callbacks unchanged. |
| AgentSpec.PublishIsDelivered | lib/FreeRTOS/freertos-plus-mqtt/freertos_mqtt_agent.c:905-911 | A PUBLISH, whatever its low-nibble flags, goes to the incoming callback and changes nothing else. |
| AgentSpec.EventKeepsTableInvariant | lib/FreeRTOS/freertos-plus-mqtt/freertos_mqtt_agent.c:884-974 | The event callback keeps every occupied entry pointing into the pool. |
| AgentSpec.DrainEventsAgreesWithDrain | lib/FreeRTOS/freertos-plus-mqtt/freertos_mqtt_agent.c:730-742 | The agent's drain makes the same calls, ends with the same status and leaves the same passes as runProcessLoops (`Drain`). |
| AgentSpec.DrainEventsKeepsTableInvariant | lib/FreeRTOS/freertos-plus-mqtt/freertos_mqtt_agent.c:730-742 | The drain keeps the table invariant and the pool size. |
| AgentSpec.AckTrackedOnlyForAcknowledgedSend | lib/FreeRTOS/freertos-plus-mqtt/freertos_mqtt_agent.c:624-710 | The table changes only for a QoS > 0 PUBLISH, a SUBSCRIBE or an UNSUBSCRIBE whose send succeeded. Then the entry goes into the lowest free slot with no callback and no release. |
| AgentSpec.FullTableGivesNoMemory | lib/FreeRTOS/freertos-plus-mqtt/freertos_mqtt_agent.c:696-722 | A send that needs tracking but finds the table full completes with MQTTNoMemory: the callback gets it and the command is released. |
| AgentSpec.UntrackedCommandCompletesOnce | lib/FreeRTOS/freertos-plus-mqtt/freertos_mqtt_agent.c:712-722 | Whenever no entry is added, the callback (if any) runs once with the status and the command is released; the table is unchanged. |
| AgentSpec.NoDrainAfterFailureDisconnectOrTerminate | lib/FreeRTOS/freertos-plus-mqtt/freertos_mqtt_agent.c:682-742 | No ProcessLoop call follows a failure, a DISCONNECT, a TERMINATE or a dropped connection. |
| AgentSpec.DrainAfterSuccessMatchesRunProcessLoops | lib/FreeRTOS/freertos-plus-mqtt/freertos_mqtt_agent.c:726-742 | After a successful command other than DISCONNECT/TERMINATE, the drain equals the handler agent's `Drain`. |
| AgentSpec.TrackedRepublishes | lib/FreeRTOS/freertos-plus-mqtt/freertos_mqtt_agent.c:1142-1165 | At most one call per reported id; each is a PUBLISH with DUP set of an id the table tracks. |
| AgentSpec.ResendRepublishesOnlyTrackedIds | lib/FreeRTOS/freertos-plus-mqtt/freertos_mqtt_agent.c:1136-1165 | The calls the resend makes are a prefix of `TrackedRepublishes`: only tracked ids, with DUP set, in the order reported. |
| AgentSpec.ResendFailureIsLastRepublishReply | lib/FreeRTOS/freertos-plus-mqtt/freertos_mqtt_agent.c:1144-1163 | A failed resend returns the engine's reply to the re-publish of some tracked id, and that re-publish is the last call made. |
| AgentSpec.ResendWithoutFailureSendsAllTracked | lib/FreeRTOS/freertos-plus-mqtt/freertos_mqtt_agent.c:1144-1163 | When every tracked id's re-publish succeeds, the resend returns Success having sent exactly `TrackedRepublishes`. |
| AgentSpec.CancelledSlots | lib/FreeRTOS/freertos-plus-mqtt/freertos_mqtt_agent.c:1178-1189 | Every slot listed is occupied and its command has a callback. |
| AgentSpec.CancelledSlotsAreExactlyTheCancelled | lib/FreeRTOS/freertos-plus-mqtt/freertos_mqtt_agent.c:1178-1189 | The listed slots are strictly increasing and include every occupied slot whose command has a callback. |
| AgentSpec.FlushCompletionsFollowSlots | lib/FreeRTOS/freertos-plus-mqtt/freertos_mqtt_agent.c:1178-1189 | The j-th flush callback is MQTTBadResponse to the context of the command in the j-th listed slot, and there are exactly as many callbacks as listed slots. |
| AgentSpec.FlushCancelsEveryPendingCommand | lib/FreeRTOS/freertos-plus-mqtt/freertos_mqtt_agent.c:1171-1191 | After the clean-session flush every slot is free. Each pending command with a callback got MQTTBadResponse exactly once, and no other callback ran. |
| FreertosMqttAgent.MqttAgentContext.AddAwaitingOperation | lib/FreeRTOS/freertos-plus-mqtt/freertos_mqtt_agent.c:328-352 | The in-place scan yields `AddAwaiting` of the old table. |
| FreertosMqttAgent.MqttAgentContext.GetAwaitingOperation | lib/FreeRTOS/freertos-plus-mqtt/freertos_mqtt_agent.c:356-387 | The in-place scan yields `GetAwaiting` of the old table. |
| FreertosMqttAgent.IsSpaceInPendingAckList | lib/FreeRTOS/freertos-plus-mqtt/freertos_mqtt_agent.c:300-324 | True iff the context is non-null and some slot is free. |
| FreertosMqttAgent.MqttAgentContext.HandleSubscriptionAcks | lib/FreeRTOS/freertos-plus-mqtt/freertos_mqtt_agent.c:798-871 | `SubscriptionAck`: the command's callback, if any, gets the result and pSubackCodes (the address two bytes into the packet's remaining data); then the command is released. |
| FreertosMqttAgent.MqttAgentContext.EventCallback | lib/FreeRTOS/freertos-plus-mqtt/freertos_mqtt_agent.c:884-974 | Always sets packetProcessedDuringLoop. Otherwise the new state is `Event` of the old one. |
| FreertosMqttAgent.MqttAgentContext.ProcessLoops | lib/FreeRTOS/freertos-plus-mqtt/freertos_mqtt_agent.c:730-742 | The do-while's status, state, calls and remaining passes are `DrainEvents`. The flag ends cleared. |
| FreertosMqttAgent.MqttAgentContext.ExecuteCommand | lib/FreeRTOS/freertos-plus-mqtt/freertos_mqtt_agent.c:622-694 | The switch's status, tracking decision, packet id and drain permission are `Execute`. So are its engine calls, connection state and counter. |
| FreertosMqttAgent.MqttAgentContext.SendPublish | lib/FreeRTOS/freertos-plus-mqtt/freertos_mqtt_agent.c:626-640 | A packet id is taken only above QoS 0, else MQTT_PACKET_ID_INVALID is sent; one MQTT_Publish call with that id and the caller's DUP flag; the engine's reply is the status. |
| FreertosMqttAgent.MqttAgentContext.SendSubscription | lib/FreeRTOS/freertos-plus-mqtt/freertos_mqtt_agent.c:642-666 | Always takes the next packet id and makes exactly one MQTT_Subscribe or MQTT_Unsubscribe call with it; the counter advances, skipping 0. |
| FreertosMqttAgent.MqttAgentContext.SendControl | lib/FreeRTOS/freertos-plus-mqtt/freertos_mqtt_agent.c:668-693 | PING, CONNECT, DISCONNECT, TERMINATE and other types: no packet id and no tracking; the status, calls and connection are `Execute`'s; only DISCONNECT and TERMINATE forbid the drain. |
| FreertosMqttAgent.MqttAgentContext.SettleCommand | lib/FreeRTOS/freertos-plus-mqtt/freertos_mqtt_agent.c:696-722 | Track the acknowledgment, or call back and release, as `Settle`. |
| FreertosMqttAgent.MqttAgentContext.ProcessCommand | lib/FreeRTOS/freertos-plus-mqtt/freertos_mqtt_agent.c:604-745 | The whole of processCommand, including a NULL command, is `ProcessSpec`. |
| FreertosMqttAgent.CreateCommand | lib/FreeRTOS/freertos-plus-mqtt/freertos_mqtt_agent.c:470-578 | Status is `Validate`. The structure is filled in when valid and zeroed otherwise; no other structure changes. |
| FreertosMqttAgent.MqttAgentContext.AddCommandToQueue | lib/FreeRTOS/freertos-plus-mqtt/freertos_mqtt_agent.c:582-600 | IllegalState with no queue, Success with the pointer appended when there is room, SendFailed when full. |
| FreertosMqttAgent.MqttAgentContext.CreateAndAddCommand | lib/FreeRTOS/freertos-plus-mqtt/freertos_mqtt_agent.c:978-1023 | With a zero packet-id counter: Success and nothing done. Otherwise: NoMemory when no structure is obtained; else the validation verdict, then the queue verdict. On success the first free slot is taken, filled and queued; on failure the slot goes back to the pool, filled if it passed validation and zeroed if not. No other command structure changes, except that first use zeroes the whole pool. |
| FreertosMqttAgent.MqttAgentContext.FillAndQueue | lib/FreeRTOS/freertos-plus-mqtt/freertos_mqtt_agent.c:996-1013 | For an obtained structure: the status is the validation verdict, then the queue verdict; only that structure changes (filled or zeroed); it is queued on success and given back to the pool on failure. |
| FreertosMqttAgent.CommandLoop | lib/FreeRTOS/freertos-plus-mqtt/freertos_mqtt_agent.c:1067-1110 | A null context gives MQTTBadParameter. Otherwise the run is `LoopSpec` of the starting state: the j-th command processed is the j-th queued (NONE once the queue is empty), the queue left is the commands not taken, no command before the last ends the loop, it stops early only after a failure, a DISCONNECT or a TERMINATE, and it returns the last status. |
| FreertosMqttAgent.ProcessQueue | lib/FreeRTOS/freertos-plus-mqtt/freertos_mqtt_agent.c:1082-1106 | The iterations form a trace of `Step`s from the starting state to the final one that stops where the loop stops; the status is the last iteration's. |
| FreertosMqttAgent.ReceiveAndProcess | lib/FreeRTOS/freertos-plus-mqtt/freertos_mqtt_agent.c:1084-1089 | Pops the oldest queued pointer (NULL when empty), records its type before processing, and the outcome and new state are `Step` of the state before. |
| AgentSpec.DequeueKeepsEveryCommand | lib/FreeRTOS/freertos-plus-mqtt/freertos_mqtt_agent.c:1085-1086 | A pop returns the oldest command and the queue loses exactly that one (same multiset); an empty queue gives NULL. |
| AgentSpec.Step | lib/FreeRTOS/freertos-plus-mqtt/freertos_mqtt_agent.c:1084-1089 | One iteration keeps the loop's preconditions, reports the popped command's type (NONE for NULL) and leaves the queue without its head. |
| AgentSpec.LoopSpec | lib/FreeRTOS/freertos-plus-mqtt/freertos_mqtt_agent.c:1082-1106 | One command type and one status per iteration, at most one iteration per reply, and at least one when any reply is given. |
| AgentSpec.TraceExtends | lib/FreeRTOS/freertos-plus-mqtt/freertos_mqtt_agent.c:1082-1106 | A trace of the loop grows by the step taken from its last state. |
| AgentSpec.TraceSuffixIsLoopSpec | lib/FreeRTOS/freertos-plus-mqtt/freertos_mqtt_agent.c:1082-1106 | The iterations of a trace from the k-th on are `LoopSpec` from the k-th state, when the trace stops where the loop stops. |
| AgentSpec.TraceIsLoopSpec | lib/FreeRTOS/freertos-plus-mqtt/freertos_mqtt_agent.c:1082-1106 | A trace that stops where the loop stops is exactly the run `LoopSpec` describes. |
| AgentSpec.TraceDequeuesInOrder | lib/FreeRTOS/freertos-plus-mqtt/freertos_mqtt_agent.c:1082-1106 | A trace that stops where the loop stops is `LoopSpec`'s run: the queued commands in order, NONE once the queue is empty, and the untaken rest still queued. |
| AgentSpec.LoopDequeuesInOrder | lib/FreeRTOS/freertos-plus-mqtt/freertos_mqtt_agent.c:1084-1088 | The j-th command processed is the j-th queued one, NONE once the queue is empty, and the final queue is the queued commands not taken. |
| AgentSpec.LoopProcessesQueueOrder | lib/FreeRTOS/freertos-plus-mqtt/freertos_mqtt_agent.c:1084-1088 | The j-th command type processed is that of the j-th queued pointer, or NONE beyond the queue. |
| AgentSpec.LoopLeavesRestQueued | lib/FreeRTOS/freertos-plus-mqtt/freertos_mqtt_agent.c:1084-1086 | The final queue is the original queue without as many head entries as iterations ran. |
| AgentSpec.LoopStopsAtFirstEnd | lib/FreeRTOS/freertos-plus-mqtt/freertos_mqtt_agent.c:1082-1106 | No iteration before the last ends the loop, and the loop uses every reply unless its last iteration failed, was a DISCONNECT or was a TERMINATE. |
| AgentSpec.LoopContinuesBeforeEnd | lib/FreeRTOS/freertos-plus-mqtt/freertos_mqtt_agent.c:1091-1104 | No iteration before the last has a failed status, a DISCONNECT or a TERMINATE. |
| AgentSpec.LoopEndsOrRunsOut | lib/FreeRTOS/freertos-plus-mqtt/freertos_mqtt_agent.c:1082-1104 | The loop uses every reply, or its last iteration failed, was a DISCONNECT or was a TERMINATE. |
| FreertosMqttAgent.MqttAgentContext.ResendPublishes | lib/FreeRTOS/freertos-plus-mqtt/freertos_mqtt_agent.c:1136-1165 | The status and engine calls are `Resend`, and the table is unchanged. |
| FreertosMqttAgent.MqttAgentContext.FlushPendingAcks | lib/FreeRTOS/freertos-plus-mqtt/freertos_mqtt_agent.c:1171-1191 | The table becomes `Flushed` and the callbacks are `FlushCompletions`, in slot order. |
| FreertosMqttAgent.MqttAgentContext.FlushSlot | lib/FreeRTOS/freertos-plus-mqtt/freertos_mqtt_agent.c:1180-1189 | An occupied slot's command is called back with MQTTBadResponse and exactly that slot is freed (getAwaitingOperation finds it first since every earlier slot is free); a free slot changes nothing. |
| FreertosMqttAgent.ResumeSession | lib/FreeRTOS/freertos-plus-mqtt/freertos_mqtt_agent.c:1114-1268 | A null context or a zero counter gives MQTTIllegalState and nothing changes. A present session resends. A clean session flushes and returns Success. The pool, the command queue, the incoming-publish log and the MQTT context's counter, connection state and pending passes never change. |

## Left out

- The coreMQTT engine's internals are not part of this model: packet
  encoding and decoding, the CONNECT handshake and keep-alive. Each engine
  call is an abstract step whose status is a parameter.
- `MQTT_PublishToResend` is not modelled as a cursor over the engine's
  state. The identifiers it reports before `MQTT_PACKET_ID_INVALID` are a
  parameter of `ResendPublishes` and `ResumeSession`.
- Concurrency is not modelled: the other tasks, the critical sections of the
  pool, the semaphore handles, the `volatile` status and the blocking waits of
  the queue and of `vTaskDelay`. The model is single-task.
- AgentCommandPool.CommandPool.AgentGetCommand: because no other task runs,
  every retry after a failed attempt fails too. The model counts the attempts
  and wait ticks but cannot have a slot freed during the wait.
- FreertosMqttAgent.MqttAgentContext.AddCommandToQueue: the blocking push is
  modelled as a non-blocking one. A full queue stays full, because no other
  task pops.
- FreertosMqttAgent.CommandLoop: the loop runs forever when no command ends
  it. Here it is bounded by the number of engine replies supplied. It also
  assumes each queued pointer is to an initialised, well-formed command. That excludes a
  CONNECT queued with NULL connect arguments, which `MQTTAgent_Connect` and
  createCommand accept but processCommand dereferences (see Findings).
- FreertosMqttAgent.CommandLoop: `assert( pMqttAgentContext->commandQueue )`
  comes before the NULL check in the source. With a NULL context that
  dereference happens first; the model goes straight to MQTTBadParameter.
- FreertosMqttAgent.MqttAgentContext.ExecuteCommand: the session-present flag
  that MQTT_Connect writes into the caller's connect arguments is not kept.
  The command-functions model keeps it (`MqttAgentCommandFunctions.Connect`).
- `handleSubscriptionAcks` passes `pRemainingData + 2` as `pSubackCodes`.
  The model passes that address on (`Completion.subackCodes`) but does not
  model the bytes it points at; they are read only by code compiled out with
  `#if 0`.
- Code under `#if 0` in `freertos_mqtt_agent.c` is not modelled: the
  subscription list, `addSubscription`, `removeSubscription`,
  `handleIncomingPublish` and the resubscribe loop of
  `MQTTAgent_ResumeSession`.
- The application callbacks are not modelled as code. `pIncomingCallback`
  and the completion callbacks are recorded as logs.
- `MQTTAgent_Init` is modelled only as the context's constructor, which
  starts with a zeroed table. The public wrappers (`MQTTAgent_Subscribe` and
  the rest) are not modelled; each only calls `createAndAddCommand`.
- The engine's contract that an acknowledgment carries a non-zero 16-bit
  packet identifier (section 2.3.1 of MQTT 3.1.1) is taken as a precondition
  on incoming passes (`WellFormedPasses`).
- Application pointers (`pCmdContext`, the publish info) are modelled by
  value: a context number, and the lengths, QoS and DUP flag the agent reads.
  A PUBLISH command sends the DUP flag of the caller's publish info; where the
  resend sets `dup` on the original publish info, the model records the DUP
  flag on the engine call.

## Findings

| source | as written | input that shows it | evidently intended | confidence | as-written member | corrected member |
|---|---|---|---|---|---|---|
| lib/FreeRTOS/mqtt-agent/mqtt_agent_command_functions.c:294-305 | `pReceivedCommand` is not reset before each receive. The failed receive that ends the loop leaves it pointing at the last command drained, whose callback then runs again. | A queue holding one command with a callback: two MQTTBadResponse callbacks to the same context. | Each queued command is cancelled exactly once. | medium, not executed (it relies on the receive leaving its out-parameter untouched on failure) | MqttAgentCommandFunctions.TerminateCallsLastCallbackTwice | MqttAgentCommandFunctions.TerminateCorrected |
| lib/FreeRTOS/freertos-plus-mqtt/freertos_mqtt_agent.c:544-548 | createCommand accepts a CONNECT when only the agent is present; MQTTAgent_Connect passes its pConnectArgs through without a check. processCommand then reads pConnectArgs->pConnectInfo (674-679). | MQTTAgent_Connect with pConnectArgs NULL and a valid agent: MQTTSuccess, and the command loop later dereferences NULL. | A CONNECT without connect arguments is refused with MQTTBadParameter. | medium, not executed | AgentSpec.ConnectWithoutArgsIsAccepted | AgentSpec.ValidateCorrected |
