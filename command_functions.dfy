/** The per-command handlers of the MQTT agent (mqtt_agent_command_functions.c).
    Each handler calls the coreMQTT engine and overwrites the caller's return flags
    in place; the flags tell the command loop whether to track an acknowledgment
    and whether to stop. */
module MqttAgentCommandFunctions {
  import opened MqttTypes
  import opened CoreMqtt

  /** MQTTAgentCommandFuncReturns_t. */
  class ReturnFlags {
    var addAcknowledgment: bool
    var packetId: int
    var endLoop: bool

    constructor (addAcknowledgment: bool, packetId: int, endLoop: bool)
      ensures this.addAcknowledgment == addAcknowledgment && this.packetId == packetId
      ensures this.endLoop == endLoop
    {
      this.addAcknowledgment := addAcknowledgment;
      this.packetId := packetId;
      this.endLoop := endLoop;
    }
  }

  /** MQTTAgentConnectArgs_t: the handler writes the broker's session-present
      answer back into the caller's record. */
  class AgentConnectArgs {
    const timeoutMs: nat
    var sessionPresent: bool

    constructor (timeoutMs: nat)
      ensures this.timeoutMs == timeoutMs && !sessionPresent
    {
      this.timeoutMs := timeoutMs;
      sessionPresent := false;
    }
  }

  /** MQTTAgentContext_t: the engine context, the flag the agent's event callback
      sets when MQTT_ProcessLoop dispatches a packet, the message context the
      commands arrive on, and the callbacks invoked so far. */
  class AgentContext {
    const mqttContext: MqttContext
    var packetReceivedInLoop: bool
    var messageQueue: seq<Command>
    var completions: seq<Completion>

    ghost predicate Valid()
      reads this, mqttContext
    {
      mqttContext.Valid()
    }

    constructor (mqttContext: MqttContext, messageQueue: seq<Command>)
      requires mqttContext.Valid()
      ensures Valid() && this.mqttContext == mqttContext
      ensures this.messageQueue == messageQueue && completions == [] && !packetReceivedInLoop
    {
      this.mqttContext := mqttContext;
      this.messageQueue := messageQueue;
      packetReceivedInLoop := false;
      completions := [];
    }
  }

  // ---------------------------------------------------------------------------
  // The process-loop drain

  /** Result of draining: the status returned, how many times MQTT_ProcessLoop
      was called and the passes still pending afterwards. */
  datatype DrainResult = DrainResult(status: Status, calls: nat, rest: seq<Pass>)

  /** The do-while of runProcessLoops, entered with status `ret` on a connection
      that is (or is not) connected, over the passes the engine will deliver.
      Every round clears the flag; the engine is called only while the status is
      still Success and the connection is up; another round follows only if the
      call dispatched a packet. */
  function Drain(connected: bool, ret: Status, incoming: seq<Pass>): (r: DrainResult)
    decreases |incoming|
    ensures !(ret == Success && connected) ==> r == DrainResult(ret, 0, incoming)
    ensures r.calls <= |incoming| + 1
    ensures |r.rest| <= |incoming|
  {
    if ret == Success && connected then
      if incoming != [] && incoming[0].packet.Some? then
        var r := Drain(connected, incoming[0].status, incoming[1..]);
        DrainResult(r.status, r.calls + 1, r.rest)
      else
        DrainResult(NextPass(incoming).0, 1, RestAfterPass(incoming))
    else
      DrainResult(ret, 0, incoming)
  }

  /** A pass after which the drain goes on: it dispatched a packet and succeeded. */
  predicate Continues(p: Pass) {
    p.packet.Some? && p.status == Success
  }

  /** Index of the first pass that ends the drain (no packet, or a failure), or
      the number of passes if there is none. */
  function StopIndex(incoming: seq<Pass>): (k: nat)
    ensures k <= |incoming|
    ensures forall i :: 0 <= i < k ==> Continues(incoming[i])
    ensures k < |incoming| ==> !Continues(incoming[k])
  {
    if incoming == [] then 0
    else if Continues(incoming[0]) then 1 + StopIndex(incoming[1..])
    else 0
  }

  /** On a connected context the drain makes StopIndex + 1 engine calls, consumes
      the passes up to and including the stopping one, and returns that pass's
      status (Success when it ran out of pending passes): the result is the first
      failure, or Success. */
  lemma {:induction false} DrainStopsAtFirstQuietOrFailedPass(incoming: seq<Pass>)
    ensures var k := StopIndex(incoming);
            Drain(true, Success, incoming)
            == DrainResult(if k < |incoming| then incoming[k].status else Success,
                           k + 1,
                           incoming[Min(k + 1, |incoming|)..])
  {
    if incoming != [] && Continues(incoming[0]) {
      DrainStopsAtFirstQuietOrFailedPass(incoming[1..]);
      assert incoming[1..][Min(StopIndex(incoming[1..]) + 1, |incoming| - 1)..]
          == incoming[Min(StopIndex(incoming) + 1, |incoming|)..];
    }
  }

  /** The drain result is Success or the status of a pass that failed, and every
      pass before it dispatched a packet and succeeded. */
  lemma DrainStatusIsFirstFailure(connected: bool, incoming: seq<Pass>)
    ensures var r := Drain(connected, Success, incoming);
            r.status == Success ||
            (StopIndex(incoming) < |incoming| && r.status == incoming[StopIndex(incoming)].status &&
             forall i :: 0 <= i < StopIndex(incoming) ==> incoming[i].status == Success)
  {
    if connected {
      DrainStopsAtFirstQuietOrFailedPass(incoming);
    }
  }

  /** Two passes that each deliver a packet followed by a quiet one: exactly three
      calls of MQTT_ProcessLoop, and the drain succeeds. */
  lemma DrainScenarioThreePasses(p: IncomingPacket)
    ensures var r := Drain(true, Success, [Pass(Some(p), Success), Pass(Some(p), Success), Pass(None, Success)]);
            r.calls == 3 && r.status == Success && r.rest == []
  {
    var passes := [Pass(Some(p), Success), Pass(Some(p), Success), Pass(None, Success)];
    assert passes[1..] == [Pass(Some(p), Success), Pass(None, Success)];
    assert passes[1..][1..] == [Pass(None, Success)];
    assert Drain(true, Success, passes[1..][1..]) == DrainResult(Success, 1, []);
    assert Drain(true, Success, passes[1..]) == DrainResult(Success, 2, []);
  }

  /** `d` preceded by `n` calls that each dispatched a packet. */
  function After(n: nat, d: DrainResult): DrainResult
  {
    DrainResult(d.status, n + d.calls, d.rest)
  }

  /** runProcessLoops. */
  method RunProcessLoops(agent: AgentContext) returns (ret: Status)
    requires agent.Valid()
    modifies agent, agent.mqttContext
    ensures agent.Valid()
    ensures var d := Drain(old(agent.mqttContext.connectStatus) == Connected, Success, old(agent.mqttContext.incoming));
            ret == d.status && agent.mqttContext.incoming == d.rest &&
            agent.mqttContext.calls == old(agent.mqttContext.calls) + ProcessLoopCalls(d.calls)
    ensures !agent.packetReceivedInLoop
    ensures agent.mqttContext.connectStatus == old(agent.mqttContext.connectStatus)
    ensures agent.mqttContext.nextPacketId == old(agent.mqttContext.nextPacketId)
    ensures agent.messageQueue == old(agent.messageQueue) && agent.completions == old(agent.completions)
  {
    var ctx := agent.mqttContext;
    ghost var connected := ctx.connectStatus == Connected;
    ghost var total := Drain(connected, Success, ctx.incoming);
    ghost var n: nat := 0;
    ret := Success;
    while true
      invariant ctx.Valid()
      invariant ctx.connectStatus == old(ctx.connectStatus) && ctx.nextPacketId == old(ctx.nextPacketId)
      invariant agent.messageQueue == old(agent.messageQueue) && agent.completions == old(agent.completions)
      invariant ctx.calls == old(ctx.calls) + ProcessLoopCalls(n)
      invariant total == After(n, Drain(connected, ret, ctx.incoming))
      decreases |ctx.incoming|
    {
      ghost var before := ctx.incoming;
      agent.packetReceivedInLoop := false;
      if ret == Success && ctx.connectStatus == Connected {
        var packet;
        ret, packet := ctx.ProcessLoop();
        n := n + 1;
        if packet.Some? {
          // The agent's event callback runs for the dispatched packet.
          agent.packetReceivedInLoop := true;
        }
      }
      if !agent.packetReceivedInLoop {
        break;
      }
    }
  }

  // ---------------------------------------------------------------------------
  // The handlers

  /** MQTTAgentCommand_ProcessLoop: clears the flags and drains. */
  method ProcessLoop(agent: AgentContext, flags: ReturnFlags) returns (ret: Status)
    requires agent.Valid()
    modifies agent, agent.mqttContext, flags
    ensures agent.Valid()
    ensures var d := Drain(old(agent.mqttContext.connectStatus) == Connected, Success, old(agent.mqttContext.incoming));
            ret == d.status && agent.mqttContext.incoming == d.rest &&
            agent.mqttContext.calls == old(agent.mqttContext.calls) + ProcessLoopCalls(d.calls)
    ensures !flags.addAcknowledgment && flags.packetId == 0 && !flags.endLoop
    ensures agent.mqttContext.connectStatus == old(agent.mqttContext.connectStatus)
    ensures agent.mqttContext.nextPacketId == old(agent.mqttContext.nextPacketId)
    ensures agent.messageQueue == old(agent.messageQueue) && agent.completions == old(agent.completions)
  {
    flags.addAcknowledgment, flags.packetId, flags.endLoop := false, 0, false;
    ret := RunProcessLoops(agent);
  }

  /** MQTTAgentCommand_Publish. A packet identifier is taken only above QoS 0;
      a QoS 0 publish is sent with whatever packetId the caller left in the flags.
      The flags are cleared after the send, so the returned packetId is 0. */
  method Publish(agent: AgentContext, publishArg: Args, flags: ReturnFlags, reply: Status) returns (ret: Status)
    requires agent.Valid() && publishArg.PublishArgs?
    modifies agent, agent.mqttContext, flags
    ensures agent.Valid()
    ensures var qos := publishArg.qos;
            var d := Drain(old(agent.mqttContext.connectStatus) == Connected, reply, old(agent.mqttContext.incoming));
            && ret == d.status
            && flags.addAcknowledgment == (qos != QoS0 && reply == Success && d.status == Success)
            && flags.packetId == 0 && !flags.endLoop
            && agent.mqttContext.calls
               == old(agent.mqttContext.calls)
                  + [PublishCall(if qos != QoS0 then old(agent.mqttContext.nextPacketId) else old(flags.packetId), publishArg.dup)]
                  + ProcessLoopCalls(d.calls)
            && agent.mqttContext.incoming == d.rest
            && agent.mqttContext.nextPacketId
               == if qos != QoS0 then NextPacketId(old(agent.mqttContext.nextPacketId))
                  else old(agent.mqttContext.nextPacketId)
    ensures agent.mqttContext.connectStatus == old(agent.mqttContext.connectStatus)
    ensures agent.messageQueue == old(agent.messageQueue) && agent.completions == old(agent.completions)
  {
    var ctx := agent.mqttContext;
    if publishArg.qos != QoS0 {
      flags.packetId := ctx.GetPacketId();
    }
    ret := ctx.Publish(flags.packetId, publishArg.dup, reply);
    flags.addAcknowledgment, flags.packetId, flags.endLoop := false, 0, false;
    flags.addAcknowledgment := publishArg.qos != QoS0 && ret == Success;
    if ret == Success {
      ret := RunProcessLoops(agent);
      if ret != Success {
        flags.addAcknowledgment := false;
      }
    }
  }

  /** MQTTAgentCommand_Subscribe: always takes a packet identifier; the flags are
      cleared after the send. */
  method Subscribe(agent: AgentContext, subscribeArgs: Args, flags: ReturnFlags, reply: Status) returns (ret: Status)
    requires agent.Valid() && subscribeArgs != NoArgs
    modifies agent, agent.mqttContext, flags
    ensures agent.Valid()
    ensures var d := Drain(old(agent.mqttContext.connectStatus) == Connected, reply, old(agent.mqttContext.incoming));
            && ret == d.status
            && flags.addAcknowledgment == (reply == Success && d.status == Success)
            && flags.packetId == 0 && !flags.endLoop
            && agent.mqttContext.calls
               == old(agent.mqttContext.calls) + [SubscribeCall(old(agent.mqttContext.nextPacketId))]
                  + ProcessLoopCalls(d.calls)
            && agent.mqttContext.incoming == d.rest
            && agent.mqttContext.nextPacketId == NextPacketId(old(agent.mqttContext.nextPacketId))
    ensures agent.mqttContext.connectStatus == old(agent.mqttContext.connectStatus)
    ensures agent.messageQueue == old(agent.messageQueue) && agent.completions == old(agent.completions)
  {
    var ctx := agent.mqttContext;
    flags.packetId := ctx.GetPacketId();
    ret := ctx.Subscribe(flags.packetId, reply);
    flags.addAcknowledgment, flags.packetId, flags.endLoop := false, 0, false;
    if ret == Success {
      flags.addAcknowledgment := true;
      ret := RunProcessLoops(agent);
      if ret != Success {
        flags.addAcknowledgment := false;
      }
    }
  }

  /** MQTTAgentCommand_Unsubscribe: as Subscribe, with MQTT_Unsubscribe. */
  method Unsubscribe(agent: AgentContext, subscribeArgs: Args, flags: ReturnFlags, reply: Status) returns (ret: Status)
    requires agent.Valid() && subscribeArgs != NoArgs
    modifies agent, agent.mqttContext, flags
    ensures agent.Valid()
    ensures var d := Drain(old(agent.mqttContext.connectStatus) == Connected, reply, old(agent.mqttContext.incoming));
            && ret == d.status
            && flags.addAcknowledgment == (reply == Success && d.status == Success)
            && flags.packetId == 0 && !flags.endLoop
            && agent.mqttContext.calls
               == old(agent.mqttContext.calls) + [UnsubscribeCall(old(agent.mqttContext.nextPacketId))]
                  + ProcessLoopCalls(d.calls)
            && agent.mqttContext.incoming == d.rest
            && agent.mqttContext.nextPacketId == NextPacketId(old(agent.mqttContext.nextPacketId))
    ensures agent.mqttContext.connectStatus == old(agent.mqttContext.connectStatus)
    ensures agent.messageQueue == old(agent.messageQueue) && agent.completions == old(agent.completions)
  {
    var ctx := agent.mqttContext;
    flags.packetId := ctx.GetPacketId();
    ret := ctx.Unsubscribe(flags.packetId, reply);
    flags.addAcknowledgment, flags.packetId, flags.endLoop := false, 0, false;
    if ret == Success {
      flags.addAcknowledgment := true;
      ret := RunProcessLoops(agent);
      if ret != Success {
        flags.addAcknowledgment := false;
      }
    }
  }

  /** MQTTAgentCommand_Connect: the engine's status is returned as it is, the
      session-present answer is written back, nothing is drained. */
  method Connect(agent: AgentContext, connectArgs: AgentConnectArgs, flags: ReturnFlags,
                 reply: Status, sessionReply: bool) returns (ret: Status)
    requires agent.Valid()
    modifies agent.mqttContext, connectArgs, flags
    ensures agent.Valid()
    ensures ret == reply && connectArgs.sessionPresent == sessionReply
    ensures !flags.addAcknowledgment && flags.packetId == 0 && !flags.endLoop
    ensures agent.mqttContext.calls == old(agent.mqttContext.calls) + [ConnectCall]
    ensures agent.mqttContext.connectStatus == if reply == Success then Connected else old(agent.mqttContext.connectStatus)
    ensures agent.mqttContext.incoming == old(agent.mqttContext.incoming)
    ensures agent.mqttContext.nextPacketId == old(agent.mqttContext.nextPacketId)
  {
    ret, connectArgs.sessionPresent := agent.mqttContext.Connect(reply, sessionReply);
    flags.addAcknowledgment, flags.packetId, flags.endLoop := false, 0, false;
  }

  /** MQTTAgentCommand_Disconnect: always ends the loop, whatever the engine
      returns; nothing is drained. */
  method Disconnect(agent: AgentContext, flags: ReturnFlags, reply: Status) returns (ret: Status)
    requires agent.Valid()
    modifies agent.mqttContext, flags
    ensures agent.Valid()
    ensures ret == reply
    ensures !flags.addAcknowledgment && flags.packetId == 0 && flags.endLoop
    ensures agent.mqttContext.calls == old(agent.mqttContext.calls) + [DisconnectCall]
    ensures agent.mqttContext.connectStatus == if reply == Success then NotConnected else old(agent.mqttContext.connectStatus)
    ensures agent.mqttContext.incoming == old(agent.mqttContext.incoming)
    ensures agent.mqttContext.nextPacketId == old(agent.mqttContext.nextPacketId)
  {
    ret := agent.mqttContext.Disconnect(reply);
    flags.addAcknowledgment, flags.packetId, flags.endLoop := false, 0, false;
    flags.endLoop := true;
  }

  /** MQTTAgentCommand_Ping: drains only after a successful ping, and then
      returns the drain's status. */
  method Ping(agent: AgentContext, flags: ReturnFlags, reply: Status) returns (ret: Status)
    requires agent.Valid()
    modifies agent, agent.mqttContext, flags
    ensures agent.Valid()
    ensures var d := Drain(old(agent.mqttContext.connectStatus) == Connected, reply, old(agent.mqttContext.incoming));
            && ret == d.status
            && agent.mqttContext.calls == old(agent.mqttContext.calls) + [PingCall] + ProcessLoopCalls(d.calls)
            && agent.mqttContext.incoming == d.rest
    ensures !flags.addAcknowledgment && flags.packetId == 0 && !flags.endLoop
    ensures agent.mqttContext.connectStatus == old(agent.mqttContext.connectStatus)
    ensures agent.mqttContext.nextPacketId == old(agent.mqttContext.nextPacketId)
    ensures agent.messageQueue == old(agent.messageQueue) && agent.completions == old(agent.completions)
  {
    ret := agent.mqttContext.Ping(reply);
    flags.addAcknowledgment, flags.packetId, flags.endLoop := false, 0, false;
    if ret == Success {
      ret := RunProcessLoops(agent);
    }
  }

  // ---------------------------------------------------------------------------
  // Terminate

  /** The completion every cancelled command with a callback receives. */
  function Cancellation(c: Command): seq<Completion>
  {
    if c.callback then [Completion(c.context, BadResponse, None)] else []
  }

  /** One cancellation per queued command that has a callback, in queue order. */
  function Cancellations(q: seq<Command>): seq<Completion>
  {
    if q == [] then [] else Cancellations(q[..|q| - 1]) + Cancellation(q[|q| - 1])
  }

  /** Number of commands in `q` that carry a callback. */
  function CallbackCount(q: seq<Command>): nat
  {
    if q == [] then 0 else CallbackCount(q[..|q| - 1]) + (if q[|q| - 1].callback then 1 else 0)
  }

  /** Every cancellation carries MQTTBadResponse, one per command with a callback. */
  lemma {:induction false} CancellationsAreBadResponses(q: seq<Command>)
    ensures |Cancellations(q)| == CallbackCount(q)
    ensures forall i :: 0 <= i < |Cancellations(q)| ==> Cancellations(q)[i].returnCode == BadResponse
  {
    if q != [] {
      CancellationsAreBadResponses(q[..|q| - 1]);
    }
  }

  /** Agent_MessageReceive with a zero wait: pops the oldest command; on an empty
      queue it fails and leaves the out-parameter as it was. */
  method MessageReceive(agent: AgentContext, current: Option<Command>) returns (received: bool, command: Option<Command>)
    modifies agent
    ensures received == (old(agent.messageQueue) != [])
    ensures received ==> command == Some(old(agent.messageQueue)[0]) && agent.messageQueue == old(agent.messageQueue)[1..]
    ensures !received ==> command == current && agent.messageQueue == old(agent.messageQueue)
    ensures agent.completions == old(agent.completions) && agent.packetReceivedInLoop == old(agent.packetReceivedInLoop)
  {
    if agent.messageQueue == [] {
      received, command := false, current;
    } else {
      received, command := true, Some(agent.messageQueue[0]);
      agent.messageQueue := agent.messageQueue[1..];
    }
  }

  /** One pass of Terminate's drain: receive with a zero wait, then invoke the
      callback of whatever command pReceivedCommand points at with
      MQTTBadResponse. */
  method CancelNext(agent: AgentContext, current: Option<Command>) returns (received: bool, command: Option<Command>)
    modifies agent
    ensures received == (old(agent.messageQueue) != [])
    ensures received ==> command == Some(old(agent.messageQueue)[0]) && agent.messageQueue == old(agent.messageQueue)[1..]
    ensures !received ==> command == current && agent.messageQueue == old(agent.messageQueue)
    ensures agent.completions == old(agent.completions) + (if command.Some? then Cancellation(command.value) else [])
    ensures agent.packetReceivedInLoop == old(agent.packetReceivedInLoop)
  {
    received, command := MessageReceive(agent, current);
    if command.Some? && command.value.callback {
      agent.completions := agent.completions + [Completion(command.value.context, BadResponse, None)];
    }
  }

  /** MQTTAgentCommand_Terminate as written: always succeeds and ends the loop,
      and cancels every queued command. pReceivedCommand is not reset between
      receives, so the failed receive that ends the drain re-delivers the last
      drained command, whose callback then runs a second time. */
  method Terminate(agent: AgentContext, flags: ReturnFlags) returns (ret: Status)
    modifies agent, flags
    ensures ret == Success
    ensures !flags.addAcknowledgment && flags.packetId == 0 && flags.endLoop
    ensures agent.messageQueue == []
    ensures agent.completions
            == old(agent.completions) + Cancellations(old(agent.messageQueue))
               + (if old(agent.messageQueue) == [] then [] else Cancellation(Last(old(agent.messageQueue))))
    ensures agent.packetReceivedInLoop == old(agent.packetReceivedInLoop)
  {
    flags.addAcknowledgment, flags.packetId, flags.endLoop := false, 0, false;
    flags.endLoop := true;
    DrainAndCancel(agent);
    ret := Success;
  }

  /** The do-while of MQTTAgentCommand_Terminate: receives with a zero wait until
      the queue is empty and after every receive, the failed last one included,
      invokes the callback of the command pReceivedCommand points at. */
  method DrainAndCancel(agent: AgentContext)
    modifies agent
    ensures agent.messageQueue == []
    ensures agent.completions
            == old(agent.completions) + Cancellations(old(agent.messageQueue))
               + (if old(agent.messageQueue) == [] then [] else Cancellation(Last(old(agent.messageQueue))))
    ensures agent.packetReceivedInLoop == old(agent.packetReceivedInLoop)
  {
    ghost var q0, c0 := agent.messageQueue, agent.completions;
    ghost var n := 0;
    var receivedCommand: Option<Command> := None;
    var received := false;
    var first := true;
    while first || received
      invariant n <= |q0| && agent.messageQueue == q0[n..]
      invariant agent.packetReceivedInLoop == old(agent.packetReceivedInLoop)
      invariant first ==> n == 0 && receivedCommand == None
      invariant !first ==> receivedCommand == if n == 0 then None else Some(q0[n - 1])
      invariant agent.completions == c0 + Cancellations(q0[..n])
                                     + (if first || received || n == 0 then [] else Cancellation(q0[n - 1]))
      invariant !(first || received) ==> n == |q0|
      decreases |q0| - n, if first || received then 1 else 0
    {
      first := false;
      if n < |q0| {
        CancellationsGrow(q0, n);
      }
      received, receivedCommand := CancelNext(agent, receivedCommand);
      if received {
        n := n + 1;
      }
    }
    assert q0[..n] == q0;
  }

  function Last(q: seq<Command>): Command
    requires q != []
  {
    q[|q| - 1]
  }

  /** With N >= 1 queued commands that all carry callbacks, Terminate as written
      invokes N + 1 callbacks: the last command is cancelled twice. */
  lemma TerminateCallsLastCallbackTwice(q: seq<Command>)
    requires q != [] && forall i :: 0 <= i < |q| ==> q[i].callback
    ensures var done := Cancellations(q) + Cancellation(Last(q));
            |done| == |q| + 1 &&
            done[|q| - 1] == done[|q|] == Completion(Last(q).context, BadResponse, None)
  {
    AllCallbacksCounted(q);
    CancellationsAreBadResponses(q);
    assert Cancellations(q) == Cancellations(q[..|q| - 1]) + Cancellation(Last(q));
  }

  lemma {:induction false} AllCallbacksCounted(q: seq<Command>)
    requires forall i :: 0 <= i < |q| ==> q[i].callback
    ensures CallbackCount(q) == |q|
  {
    if q != [] {
      AllCallbacksCounted(q[..|q| - 1]);
    }
  }

  /** Terminate with pReceivedCommand cleared before every receive: each queued
      command with a callback is cancelled exactly once. */
  method TerminateCorrected(agent: AgentContext, flags: ReturnFlags) returns (ret: Status)
    modifies agent, flags
    ensures ret == Success
    ensures !flags.addAcknowledgment && flags.packetId == 0 && flags.endLoop
    ensures agent.messageQueue == []
    ensures agent.completions == old(agent.completions) + Cancellations(old(agent.messageQueue))
    ensures agent.packetReceivedInLoop == old(agent.packetReceivedInLoop)
  {
    ghost var q0, c0 := agent.messageQueue, agent.completions;
    ghost var n := 0;
    var received := false;
    flags.addAcknowledgment, flags.packetId, flags.endLoop := false, 0, false;
    flags.endLoop := true;
    var first := true;
    while first || received
      invariant n <= |q0| && agent.messageQueue == q0[n..]
      invariant agent.packetReceivedInLoop == old(agent.packetReceivedInLoop)
      invariant !flags.addAcknowledgment && flags.packetId == 0 && flags.endLoop
      invariant first ==> n == 0
      invariant agent.completions == c0 + Cancellations(q0[..n])
      invariant !(first || received) ==> n == |q0|
      decreases |q0| - n, if first || received then 1 else 0
    {
      first := false;
      if n < |q0| {
        CancellationsGrow(q0, n);
      }
      var receivedCommand: Option<Command>;
      received, receivedCommand := CancelNext(agent, None);
      if received {
        n := n + 1;
      }
    }
    assert q0[..n] == q0;
    ret := Success;
  }

  /** Cancelling one more command of `q` appends its cancellation, and the
      queue left over loses that command. */
  lemma CancellationsGrow(q: seq<Command>, n: nat)
    requires n < |q|
    ensures Cancellations(q[..n + 1]) == Cancellations(q[..n]) + Cancellation(q[n])
    ensures q[n..][0] == q[n] && q[n..][1..] == q[n + 1..]
  {
    assert q[..n + 1][..n] == q[..n];
  }
}
