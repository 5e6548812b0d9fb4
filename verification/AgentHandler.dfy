/**
  The request handler of the agent, one command at a time.  It calls the driver of its
  client synchronously: send one request, wait for one reply.  A driver that neither replies
  nor closes leaves the handler blocked in that wait.
 */
module AgentHandler {
  import opened Options
  import opened AgentSession

  /** A command read and, if it goes to a driver, served and answered before anything else happens. */
  function Synchronous(s: State): State {
    var t := ReadCommand(s);
    if t.agent.Waiting? && t.agent.session < |t.sessions|
    then ReceiveReply(Step(t, DriverServes(t.agent.session))) else t
  }

  class AgentRequestHandler {
    var inbox: seq<CommandKind>
    var handled: nat
    var skipped: seq<nat>
    var responses: seq<Response>
    var agent: Agent
    var client: Option<nat>
    var sessions: seq<Session>

    ghost function Value(): State
      reads this
    {
      State(inbox, handled, skipped, responses, agent, client, sessions)
    }

    constructor ()
      ensures Value() == START
    {
      inbox, handled, skipped, responses, agent, client, sessions := [], 0, [], [], Ready, None, [];
    }

    method SendResponse(id: nat, relays: Option<nat>)
      modifies this`responses
      ensures Value() == Respond(old(Value()), id, relays)
    {
      responses := responses + [Response(id, relays)];
    }

    /** Connects to a freshly started driver. */
    method Connect(kind: DriverKind) returns (i: nat)
      modifies this`sessions
      ensures i == |old(sessions)| && Value() == Open(old(Value()), kind)
    {
      i := |sessions|;
      sessions := sessions + [Session(kind, [], [], true)];
    }

    /** Sends a request, lets the driver serve it, and waits for the reply. */
    method Call(id: nat, i: nat, what: DriverRequest, launching: bool)
      requires i < |sessions|
      modifies this`sessions, this`agent, this`client, this`responses
      ensures var sent := SendTo(old(Value()), i, Request(id, what)).(agent := Waiting(id, i, launching));
              Value() == ReceiveReply(Step(sent, DriverServes(i)))
    {
      var d := sessions[i];
      if d.open {
        d := d.(requests := d.requests + [Request(id, what)]);
      }
      d := Serve(d);
      if d.replies != [] {
        var reply := d.replies[0];
        sessions := sessions[i := d.(replies := d.replies[1..])];
        Finish(i, launching);
        SendResponse(id, Some(reply));
      } else if !d.open {
        sessions := sessions[i := d];
        Finish(i, launching);
        SendResponse(id, None);
      } else {
        sessions := sessions[i := d];
        agent := Waiting(id, i, launching);
      }
    }

    method Finish(i: nat, launching: bool)
      modifies this`agent, this`client
      ensures agent == Ready && client == if launching then Some(i) else old(client)
    {
      agent := Ready;
      if launching { client := Some(i); }
    }

    method LaunchDriverService(id: nat, plan: Launch)
      requires agent == Ready
      modifies this
      ensures Value() == (var t := Handle(old(Value()), CommandKind.LaunchDriverService(plan), id);
                          if t.agent.Waiting? then ReceiveReply(Step(t, DriverServes(t.agent.session))) else t)
    {
      match plan
      case NotStarted => SendResponse(id, None);
      case Started(ShellDriver) =>
        var i := Connect(ShellDriver);
        client := Some(i);
        SendResponse(id, None);
      case Started(HalDriver) =>
        var i := Connect(HalDriver);
        Call(id, i, LoadHal, true);
    }

    /** A command for the driver; without a client, no response, and the end unless it is a shell command. */
    method RelayToDriver(id: nat, kind: CommandKind, what: DriverRequest)
      requires agent == Ready && Relayed(kind) == Some(what) && (client.Some? ==> client.value < |sessions|)
      modifies this
      ensures Value() == (var t := Handle(old(Value()), kind, id);
                          if t.agent.Waiting? then ReceiveReply(Step(t, DriverServes(t.agent.session))) else t)
    {
      if client == None {
        skipped := skipped + [id];
        if kind != ExecuteShellCommand { agent := Ended; }
        return;
      }
      Call(id, client.value, what, false);
    }

    /** Reads and handles one command; false ends the session, and a blocked handler never returns. */
    method ProcessOneCommand() returns (more: bool)
      requires agent == Ready && (client.Some? ==> client.value < |sessions|)
      modifies this
      ensures Value() == Synchronous(old(Value()))
      ensures more <==> old(inbox) != [] && agent == Ready
    {
      hide Serve;
      hide ReceiveReply;
      hide Step;
      if inbox == [] { return false; }
      var kind, id := inbox[0], handled;
      inbox, handled := inbox[1..], handled + 1;
      if kind.LaunchDriverService? {
        LaunchDriverService(id, kind.plan);
      } else if Relayed(kind).Some? {
        RelayToDriver(id, kind, Relayed(kind).value);
      } else {
        SendResponse(id, None);
      }
      more := agent == Ready;
    }
  }

  /** Handling a command synchronously is one of the interleavings. */
  lemma SynchronousIsRun(s: State)
    ensures exists actions :: Synchronous(s) == Run(s, actions)
  {
    var t := ReadCommand(s);
    if t.agent.Waiting? && t.agent.session < |t.sessions| {
      var i := t.agent.session;
      var u := Step(t, DriverServes(i));
      assert Run(u, [AgentReceives]) == Run(ReceiveReply(u), []) == ReceiveReply(u);
      assert [DriverServes(i), AgentReceives][1..] == [AgentReceives];
      assert Run(t, [DriverServes(i), AgentReceives]) == Run(u, [AgentReceives]);
      assert [AgentReads, DriverServes(i), AgentReceives][1..] == [DriverServes(i), AgentReceives];
      assert Run(s, [AgentReads, DriverServes(i), AgentReceives]) == Run(t, [DriverServes(i), AgentReceives]);
    } else {
      assert Run(s, [AgentReads]) == Run(t, []) == t;
    }
  }

  /** With a HAL driver as client, a command is answered when read or leaves the agent waiting for a HAL driver. */
  lemma HalCommandRead(s: State)
    requires SessionsFit(s) && s.agent == Ready && s.inbox != []
    requires s.client.Some? && s.sessions[s.client.value].kind == HalDriver
    ensures var t := ReadCommand(s);
            && t.handled == s.handled + 1
            && if t.agent.Waiting?
               then && t.responses == s.responses && t.agent.id == s.handled
                    && t.agent.session < |t.sessions| && t.sessions[t.agent.session].kind == HalDriver
               else t.agent == Ready && t.responses == s.responses + [Response(s.handled, None)]
  {
  }

  lemma ReplyIsOneResponse(s: State)
    requires s.agent.Waiting? && ReceiveReply(s).agent == Ready
    ensures exists relays :: ReceiveReply(s).responses == s.responses + [Response(s.agent.id, relays)]
    ensures ReceiveReply(s).handled == s.handled
  {
    var d := s.sessions[s.agent.session];
    assert ReceiveReply(s).responses
        == s.responses + [Response(s.agent.id, if d.replies != [] then Some(d.replies[0]) else None)];
  }

  /**
    Served synchronously with a HAL driver as client, every command gets exactly one response
    at once, carrying only a reply to that very command, and the handler is ready again.
   */
  lemma HalCommandAnswered(s: State)
    requires Inv(s) && s.agent == Ready && s.inbox != []
    requires s.client.Some? && s.sessions[s.client.value].kind == HalDriver
    ensures var t := Synchronous(s);
            && Inv(t) && t.agent == Ready && t.client.Some? && t.handled == s.handled + 1
            && exists relays ::
                 && t.responses == s.responses + [Response(s.handled, relays)]
                 && (relays == None || relays == Some(s.handled))
  {
    hide Owed;
    hide ResponseIds;
    hide Answered;
    hide ReadCommand;
    hide ReceiveReply;
    hide Serve;
    var t := ReadCommand(s);
    HalCommandRead(s);
    ReadKeepsInv(s);
    ClientStays(s, AgentReads);
    if t.agent.Waiting? {
      var i := t.agent.session;
      var u := Step(t, DriverServes(i));
      ServeKeepsInv(t, i);
      ReceiveKeepsInv(u);
      HalNeverStrands(t);
      ReplyIsOneResponse(u);
      ClientStays(u, AgentReceives);
      var relays :| ReceiveReply(u).responses == u.responses + [Response(u.agent.id, relays)];
      assert ReceiveReply(u).responses[|s.responses|] == Response(s.handled, relays);
    }
  }

  /** Launching a driver, served synchronously, makes its fresh session the client and leaves the handler ready. */
  lemma LaunchSetsClient(s: State, kind: DriverKind)
    requires Inv(s) && s.agent == Ready && s.inbox != [] && s.inbox[0] == LaunchDriverService(Started(kind))
    ensures var t := Synchronous(s);
            && t.agent == Ready && t.client == Some(|s.sessions|)
            && |t.sessions| == |s.sessions| + 1 && t.sessions[|s.sessions|] == Session(kind, [], [], true)
            && exists relays :: t.responses == s.responses + [Response(s.handled, relays)]
  {
    var i, id := |s.sessions|, s.handled;
    var t := ReadCommand(s);
    match kind
    case ShellDriver =>
      assert t.responses == s.responses + [Response(id, None)];
    case HalDriver =>
      assert [] + [Request(id, LoadHal)] == [Request(id, LoadHal)];
      assert t.sessions == s.sessions + [Session(HalDriver, [Request(id, LoadHal)], [], true)];
      var u := Step(t, DriverServes(i));
      assert [] + [id] == [id] && [Request(id, LoadHal)][1..] == [];
      assert u.sessions[i] == Session(HalDriver, [], [id], true);
      assert [id][1..] == [];
      assert ReceiveReply(u).responses == s.responses + [Response(id, Some(id))];
  }

  /** A fresh session that launches a HAL driver and then calls an API answers both and goes on. */
  lemma LaunchThenCall(s: State)
    requires Inv(s) && s.agent == Ready && |s.inbox| >= 2
    requires s.inbox[0] == LaunchDriverService(Started(HalDriver))
    ensures var t := Synchronous(Synchronous(s));
            t.agent == Ready && t.client.Some? && |t.responses| == |s.responses| + 2 && t.skipped == s.skipped
  {
    var t := Synchronous(s);
    SynchronousKeepsInv(s);
    LaunchSetsClient(s, HalDriver);
    LaunchReads(s);
    HalCommandAnswered(t);
    SynchronousSkipsNothing(t);
  }

  lemma SynchronousKeepsInv(s: State)
    requires Inv(s)
    ensures Inv(Synchronous(s))
  {
    hide Inv;
    var t := ReadCommand(s);
    ReadKeepsInv(s);
    if t.agent.Waiting? && t.agent.session < |t.sessions| {
      ServeKeepsInv(t, t.agent.session);
      ReceiveKeepsInv(Step(t, DriverServes(t.agent.session)));
    }
  }

  lemma LaunchReads(s: State)
    requires s.agent == Ready && s.inbox != [] && s.inbox[0] == LaunchDriverService(Started(HalDriver))
    ensures Synchronous(s).inbox == s.inbox[1..] && Synchronous(s).skipped == s.skipped
  {
  }

  lemma SynchronousSkipsNothing(s: State)
    requires Inv(s) && s.client.Some?
    ensures Synchronous(s).skipped == s.skipped
  {
    hide Inv;
    var t := ReadCommand(s);
    ReadKeepsInv(s);
    ClientStays(s, AgentReads);
    if t.agent.Waiting? && t.agent.session < |t.sessions| {
      var u := Step(t, DriverServes(t.agent.session));
      ServeKeepsInv(t, t.agent.session);
      ClientStays(t, DriverServes(t.agent.session));
      ClientStays(u, AgentReceives);
    }
  }
}
