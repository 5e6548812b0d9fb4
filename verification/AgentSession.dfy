/**
  One runner session: the runner, the agent that serves it one command at a time, and the
  driver sessions the agent opens.  Channels are reliable and in order.  Every message
  carries the number of the runner command it belongs to, so that a response can be
  compared with the request it answers; the programs themselves never see these numbers.
 */
module AgentSession {
  import opened Options

  datatype DriverKind = HalDriver | ShellDriver

  /** What becomes of an attempt to start a driver. */
  datatype Launch = NotStarted | Started(kind: DriverKind)

  datatype CommandKind =
    | ListHals | SetHostInfo | CheckDriverService | UnknownCommand
    | LaunchDriverService(plan: Launch)
    | ReadSpecification | ListApis | CallApi | GetAttribute
    | ExecuteShellCommand
    | FmqCommand | HidlMemoryCommand | HidlHandleCommand

  datatype DriverRequest =
    | LoadHal | CallFunction | ReadSpec | GetDriverAttribute | ListFunctions
    | FmqOperation | HidlMemoryOperation | HidlHandleOperation | ExecuteCommand

  /** The driver request a command is relayed as. */
  function Relayed(k: CommandKind): Option<DriverRequest> {
    match k
    case ReadSpecification => Some(ReadSpec)
    case ListApis => Some(ListFunctions)
    case CallApi => Some(CallFunction)
    case GetAttribute => Some(GetDriverAttribute)
    case ExecuteShellCommand => Some(ExecuteCommand)
    case FmqCommand => Some(FmqOperation)
    case HidlMemoryCommand => Some(HidlMemoryOperation)
    case HidlHandleCommand => Some(HidlHandleOperation)
    case _ => None
  }

  datatype Request = Request(id: nat, what: DriverRequest)

  /** A driver session: requests not yet read, replies not yet received, whether the driver still serves it. */
  datatype Session = Session(kind: DriverKind, requests: seq<Request>, replies: seq<nat>, open: bool)

  /** A response to the runner: the command it is sent for, and the request whose reply it carries. */
  datatype Response = Response(answers: nat, relays: Option<nat>)

  datatype Agent =
    | Ready
    | Waiting(id: nat, session: nat, launching: bool)
    | Ended

  datatype State = State(
    inbox: seq<CommandKind>,     // sent by the runner, not yet read
    handled: nat,                // commands read so far; the next one has this number
    skipped: seq<nat>,           // commands read without a response
    responses: seq<Response>,
    agent: Agent,
    client: Option<nat>,         // the driver client: index of its session
    sessions: seq<Session>)

  const START := State([], 0, [], [], Ready, None, [])

  // ---- Steps ---------------------------------------------------------------------------------------

  datatype Action = RunnerSends(kind: CommandKind) | AgentReads | DriverServes(session: nat) | AgentReceives

  function Respond(s: State, id: nat, relays: Option<nat>): State {
    s.(responses := s.responses + [Response(id, relays)])
  }

  /** Sending to a driver that has gone loses the request; the receive that follows fails. */
  function SendTo(s: State, i: nat, r: Request): State
    requires i < |s.sessions|
  {
    var d := s.sessions[i];
    if d.open then s.(sessions := s.sessions[i := d.(requests := d.requests + [r])]) else s
  }

  function Open(s: State, kind: DriverKind): State {
    s.(sessions := s.sessions + [Session(kind, [], [], true)])
  }

  /** The agent reads a command and handles it, up to the point where it waits for a driver. */
  function Handle(s: State, kind: CommandKind, id: nat): State {
    match kind
    case LaunchDriverService(NotStarted) => Respond(s, id, None)
    case LaunchDriverService(Started(ShellDriver)) =>
      Respond(Open(s, ShellDriver), id, None).(client := Some(|s.sessions|))
    case LaunchDriverService(Started(HalDriver)) =>
      var i := |s.sessions|;
      SendTo(Open(s, HalDriver), i, Request(id, LoadHal)).(agent := Waiting(id, i, true))
    case _ =>
      match Relayed(kind)
      case None => Respond(s, id, None)
      case Some(what) =>
        if s.client.Some? && s.client.value < |s.sessions| then
          SendTo(s, s.client.value, Request(id, what)).(agent := Waiting(id, s.client.value, false))
        else if kind == ExecuteShellCommand then
          s.(skipped := s.skipped + [id])  // no response, and the session goes on
        else
          s.(skipped := s.skipped + [id], agent := Ended)
  }

  function ReadCommand(s: State): State {
    if s.agent == Ready && s.inbox != [] then
      Handle(s.(inbox := s.inbox[1..], handled := s.handled + 1), s.inbox[0], s.handled)
    else s
  }

  /** A HAL driver answers every request it knows and closes on any other. */
  predicate HalKnows(what: DriverRequest) {
    what != ExecuteCommand
  }

  function Serve(d: Session): Session {
    if !d.open || d.requests == [] then d
    else
      var r := d.requests[0];
      var rest := d.(requests := d.requests[1..]);
      match d.kind
      case HalDriver =>
        if HalKnows(r.what) then rest.(replies := d.replies + [r.id]) else rest.(open := false)
      case ShellDriver =>
        if r.what == ExecuteCommand then rest.(replies := d.replies + [r.id]) else rest
  }

  /** The agent receives the reply it waits for, or finds the driver gone. */
  function ReceiveReply(s: State): State {
    if s.agent.Waiting? && s.agent.session < |s.sessions| then
      var Waiting(id, i, launching) := s.agent;
      var d := s.sessions[i];
      var client := if launching then Some(i) else s.client;
      if d.replies != [] then
        Respond(s.(sessions := s.sessions[i := d.(replies := d.replies[1..])], agent := Ready, client := client),
                id, Some(d.replies[0]))
      else if !d.open then
        Respond(s.(agent := Ready, client := client), id, None)
      else s
    else s
  }

  function Step(s: State, a: Action): State {
    match a
    case RunnerSends(kind) => s.(inbox := s.inbox + [kind])
    case AgentReads => ReadCommand(s)
    case DriverServes(i) => if i < |s.sessions| then s.(sessions := s.sessions[i := Serve(s.sessions[i])]) else s
    case AgentReceives => ReceiveReply(s)
  }

  function Run(s: State, actions: seq<Action>): State
    decreases |actions|
  {
    if actions == [] then s else Run(Step(s, actions[0]), actions[1..])
  }

  // ---- What every step keeps --------------------------------------------------------------------------

  predicate Quiet(d: Session) {
    d.requests == [] && d.replies == []
  }

  /** Exactly the one request is under way, or its reply is, or it is lost. */
  predicate Carries(d: Session, id: nat) {
    || (|d.requests| == 1 && d.requests[0].id == id && d.replies == [] && d.open)
    || (d.requests == [] && d.replies == [id])
    || (Quiet(d) && (d.kind == HalDriver ==> !d.open))
  }

  /** The numbers of the responses sent, and of the command under way. */
  function Answered(s: State): seq<nat> {
    ResponseIds(s.responses) + if s.agent.Waiting? then [s.agent.id] else []
  }

  function ResponseIds(rs: seq<Response>): seq<nat> {
    if rs == [] then [] else ResponseIds(rs[..|rs| - 1]) + [rs[|rs| - 1].answers]
  }

  /** The commands below `n` that were not skipped, in order. */
  function Owed(n: nat, skipped: seq<nat>): seq<nat> {
    if n == 0 then [] else Owed(n - 1, skipped) + if n - 1 in skipped then [] else [n - 1]
  }

  predicate Inv(s: State) {
    && Answered(s) == Owed(s.handled, s.skipped)
    && (forall k :: 0 <= k < |s.skipped| ==> s.skipped[k] < s.handled)
    && (forall k :: 0 <= k < |s.responses| && s.responses[k].relays.Some? ==>
          s.responses[k].relays.value == s.responses[k].answers)
    && (s.agent == Ended ==> s.client == None)
    && SessionsFit(s)
  }

  /** Only the session waited for carries anything, and only for the command under way. */
  predicate SessionsFit(s: State) {
    && (s.client.Some? ==> s.client.value < |s.sessions|)
    && (s.agent.Waiting? ==> s.agent.session < |s.sessions| && Carries(s.sessions[s.agent.session], s.agent.id))
    && (forall i :: 0 <= i < |s.sessions| && !(s.agent.Waiting? && s.agent.session == i) ==> Quiet(s.sessions[i]))
  }

  lemma {:induction false} OwedIgnoresLater(n: nat, skipped: seq<nat>, id: nat)
    requires n <= id
    ensures Owed(n, skipped + [id]) == Owed(n, skipped)
  {
    if n > 0 {
      OwedIgnoresLater(n - 1, skipped, id);
    }
  }

  lemma OwedNext(s: State)
    requires forall k :: 0 <= k < |s.skipped| ==> s.skipped[k] < s.handled
    ensures Owed(s.handled + 1, s.skipped) == Owed(s.handled, s.skipped) + [s.handled]
    ensures Owed(s.handled + 1, s.skipped + [s.handled]) == Owed(s.handled, s.skipped)
  {
    OwedIgnoresLater(s.handled, s.skipped, s.handled);
    assert s.handled !in s.skipped;
    assert (s.skipped + [s.handled])[|s.skipped|] == s.handled;
    assert Owed(s.handled, s.skipped) + [] == Owed(s.handled, s.skipped);
  }

  lemma ResponseIdsAppend(rs: seq<Response>, r: Response)
    ensures ResponseIds(rs + [r]) == ResponseIds(rs) + [r.answers]
  {
    assert (rs + [r])[..|rs|] == rs;
  }

  /** How the books of answered and owed commands move when command `s.handled` is read. */
  lemma Books(s: State)
    requires Inv(s) && s.agent == Ready
    ensures ResponseIds(s.responses) == Owed(s.handled, s.skipped)
    ensures ResponseIds(s.responses + [Response(s.handled, None)]) + [] == Owed(s.handled + 1, s.skipped)
    ensures ResponseIds(s.responses) + [s.handled] == Owed(s.handled + 1, s.skipped)
    ensures ResponseIds(s.responses) + [] == Owed(s.handled + 1, s.skipped + [s.handled])
  {
    hide SessionsFit;
    OwedNext(s);
    ResponseIdsAppend(s.responses, Response(s.handled, None));
    var ids := ResponseIds(s.responses);
    assert ids + [] == ids && (ids + [s.handled]) + [] == ids + [s.handled];
  }

  lemma LaunchKeepsInv(s: State)
    requires Inv(s) && s.agent == Ready && s.inbox != [] && s.inbox[0].LaunchDriverService?
    ensures Inv(ReadCommand(s))
  {
    hide Owed;
    hide ResponseIds;
    Books(s);
    var t := ReadCommand(s);
    match s.inbox[0].plan
    case NotStarted =>
    case Started(ShellDriver) =>
      assert t.sessions == s.sessions + [Session(ShellDriver, [], [], true)];
    case Started(HalDriver) =>
      assert [] + [Request(s.handled, LoadHal)] == [Request(s.handled, LoadHal)];
      assert t.sessions == s.sessions + [Session(HalDriver, [Request(s.handled, LoadHal)], [], true)];
  }

  /** A command read and answered by the agent itself. */
  lemma AnswerKeepsInv(s: State, rest: seq<CommandKind>)
    requires Inv(s) && s.agent == Ready
    ensures Inv(Respond(s.(inbox := rest, handled := s.handled + 1), s.handled, None))
  {
    hide Owed;
    hide ResponseIds;
    hide SessionsFit;
    Books(s);
    var t := Respond(s.(inbox := rest, handled := s.handled + 1), s.handled, None);
    assert SessionsFit(t) by { FitIgnoresBooks(s, t); }
  }

  /** Where sessions, client and agent agree, messages fit alike. */
  lemma FitIgnoresBooks(s: State, t: State)
    requires SessionsFit(s) && t.sessions == s.sessions && t.client == s.client
    requires !s.agent.Waiting? && !t.agent.Waiting?
    ensures SessionsFit(t)
  {
  }

  /** A command read without a response, for want of a driver. */
  lemma SkipKeepsInv(s: State, rest: seq<CommandKind>, after: Agent)
    requires Inv(s) && s.agent == Ready && s.client == None && !after.Waiting?
    ensures Inv(s.(inbox := rest, handled := s.handled + 1, skipped := s.skipped + [s.handled], agent := after))
  {
    hide Owed;
    hide ResponseIds;
    hide SessionsFit;
    Books(s);
    var t := s.(inbox := rest, handled := s.handled + 1, skipped := s.skipped + [s.handled], agent := after);
    assert SessionsFit(t) by { FitIgnoresBooks(s, t); }
  }

  /** Once a request is sent to a quiet session, that session carries it. */
  lemma SentIsCarried(d: Session, r: Request)
    requires Quiet(d)
    ensures Carries(if d.open then d.(requests := d.requests + [r]) else d, r.id)
  {
    assert [] + [r] == [r];
  }

  /** A command sent on to a driver. */
  lemma SendKeepsInv(s: State, rest: seq<CommandKind>, i: nat, what: DriverRequest)
    requires Inv(s) && s.agent == Ready && i < |s.sessions|
    ensures var t := SendTo(s.(inbox := rest, handled := s.handled + 1), i, Request(s.handled, what));
            Inv(t.(agent := Waiting(s.handled, i, false)))
  {
    hide Owed;
    hide ResponseIds;
    hide Carries;
    Books(s);
    SentIsCarried(s.sessions[i], Request(s.handled, what));
  }

  /** What handling a command other than a launch does. */
  lemma HandleRelayed(s: State, kind: CommandKind, id: nat)
    requires !kind.LaunchDriverService? && (s.client.Some? ==> s.client.value < |s.sessions|)
    ensures Handle(s, kind, id) ==
            if Relayed(kind) == None then Respond(s, id, None)
            else if s.client == None then
              s.(skipped := s.skipped + [id], agent := if kind == ExecuteShellCommand then s.agent else Ended)
            else
              SendTo(s, s.client.value, Request(id, Relayed(kind).value)).(agent := Waiting(id, s.client.value, false))
  {
    hide SendTo;
    hide Respond;
  }

  lemma ClientInRange(s: State)
    requires Inv(s)
    ensures s.client.Some? ==> s.client.value < |s.sessions|
  {
  }

  lemma RelayKeepsInv(s: State)
    requires Inv(s) && s.agent == Ready && s.inbox != [] && !s.inbox[0].LaunchDriverService?
    ensures Inv(ReadCommand(s))
  {
    hide Inv;
    hide SessionsFit;
    hide Relayed;
    hide Handle;
    hide SendTo;
    hide Respond;
    var kind, rest := s.inbox[0], s.inbox[1..];
    ClientInRange(s);
    HandleRelayed(s.(inbox := rest, handled := s.handled + 1), kind, s.handled);
    if Relayed(kind) == None {
      AnswerKeepsInv(s, rest);
    } else if s.client == None {
      SkipKeepsInv(s, rest, if kind == ExecuteShellCommand then Ready else Ended);
    } else {
      SendKeepsInv(s, rest, s.client.value, Relayed(kind).value);
    }
  }

  lemma ReadKeepsInv(s: State)
    requires Inv(s)
    ensures Inv(ReadCommand(s))
  {
    hide Inv;
    if s.agent == Ready && s.inbox != [] {
      if s.inbox[0].LaunchDriverService? {
        LaunchKeepsInv(s);
      } else {
        RelayKeepsInv(s);
      }
    }
  }

  lemma ServeKeepsInv(s: State, i: nat)
    requires Inv(s)
    ensures Inv(Step(s, DriverServes(i)))
  {
    hide Owed;
    hide ResponseIds;
  }

  lemma ReceiveKeepsInv(s: State)
    requires Inv(s)
    ensures Inv(ReceiveReply(s))
  {
    hide Owed;
    hide ResponseIds;
    if s.agent.Waiting? {
      var d := s.sessions[s.agent.session];
      var ids := ResponseIds(s.responses);
      ResponseIdsAppend(s.responses, Response(s.agent.id, None));
      ResponseIdsAppend(s.responses, Response(s.agent.id, Some(s.agent.id)));
      assert (ids + [s.agent.id]) + [] == ids + [s.agent.id];
    }
  }

  lemma StepKeepsInv(s: State, a: Action)
    requires Inv(s)
    ensures Inv(Step(s, a))
  {
    match a
    case RunnerSends(_) =>
    case AgentReads => ReadKeepsInv(s);
    case DriverServes(i) => ServeKeepsInv(s, i);
    case AgentReceives => ReceiveKeepsInv(s);
  }

  lemma {:induction false} RunKeepsInv(s: State, actions: seq<Action>)
    requires Inv(s)
    ensures Inv(Run(s, actions))
    decreases |actions|
  {
    hide Inv;
    if actions != [] {
      StepKeepsInv(s, actions[0]);
      RunKeepsInv(Step(s, actions[0]), actions[1..]);
    }
  }

  /** The invariant holds after every interleaving of the three parties. */
  lemma AlwaysInv(actions: seq<Action>)
    ensures Inv(Run(START, actions))
  {
    RunKeepsInv(START, actions);
  }

  // ---- Guarantees -----------------------------------------------------------------------------------------

  /** A set driver client stays set, and from then on no command is skipped. */
  lemma ClientStays(s: State, a: Action)
    requires Inv(s) && s.client.Some?
    ensures Step(s, a).client.Some? && Step(s, a).skipped == s.skipped
  {
    hide Owed;
    hide ResponseIds;
    hide Answered;
  }

  /** A command is read without a response if and only if it needs a driver and there is no client. */
  lemma SkippedIffNoClient(s: State)
    requires Inv(s) && s.agent == Ready && s.inbox != []
    ensures ReadCommand(s).skipped != s.skipped <==> s.client == None && Relayed(s.inbox[0]).Some?
    ensures ReadCommand(s).agent == Ended <==>
            s.client == None && Relayed(s.inbox[0]).Some? && s.inbox[0] != ExecuteShellCommand
  {
    hide Inv;
    ClientInRange(s);
    var kind, t := s.inbox[0], s.(inbox := s.inbox[1..], handled := s.handled + 1);
    assert s.skipped + [s.handled] != s.skipped;
    if !kind.LaunchDriverService? {
      HandleRelayed(t, kind, s.handled);
    }
  }

  /** A relayed command goes to the client's session, as the request it stands for, and its reply is awaited there. */
  lemma RelayReachesClient(s: State)
    requires Inv(s) && s.agent == Ready && s.inbox != [] && s.client.Some? && Relayed(s.inbox[0]).Some?
    ensures var t, i := ReadCommand(s), s.client.value;
            && i < |s.sessions| && t.agent == Waiting(s.handled, i, false) && t.client == s.client
            && t.sessions == s.sessions[i := t.sessions[i]]
            && t.sessions[i] == (if s.sessions[i].open
                                 then s.sessions[i].(requests := [Request(s.handled, Relayed(s.inbox[0]).value)])
                                 else s.sessions[i])
  {
    ClientInRange(s);
    var i, r := s.client.value, Request(s.handled, Relayed(s.inbox[0]).value);
    assert Quiet(s.sessions[i]);
    assert [] + [r] == [r];
    hide Inv;
    hide Relayed;
    hide Handle;
    LaunchNotRelayed(s.inbox[0]);
    HandleRelayed(s.(inbox := s.inbox[1..], handled := s.handled + 1), s.inbox[0], s.handled);
  }

  lemma LaunchNotRelayed(kind: CommandKind)
    ensures Relayed(kind).Some? ==> !kind.LaunchDriverService?
  {
  }

  /** Which request each command is relayed as; no two share one, and none is the load request of a launch. */
  lemma RelayedAs(j: CommandKind, k: CommandKind)
    ensures Relayed(ReadSpecification) == Some(ReadSpec) && Relayed(ListApis) == Some(ListFunctions)
    ensures Relayed(CallApi) == Some(CallFunction) && Relayed(GetAttribute) == Some(GetDriverAttribute)
    ensures Relayed(ExecuteShellCommand) == Some(ExecuteCommand) && Relayed(FmqCommand) == Some(FmqOperation)
    ensures Relayed(HidlMemoryCommand) == Some(HidlMemoryOperation)
    ensures Relayed(HidlHandleCommand) == Some(HidlHandleOperation)
    ensures Relayed(j) == Relayed(k) && j != k ==> Relayed(j) == None
    ensures Relayed(k) != Some(LoadHal)
  {
  }

  // ---- Whose session the client is ----------------------------------------------------------------------

  /** The session opened by a launch that is under way, and the one of the last launch completed. */
  datatype Launches = Launches(pending: Option<nat>, last: Option<nat>)

  /**
    What a step means for launches.  Reading the launch of a shell driver completes it; that of
    a HAL driver is completed when the agent, having waited for the driver, is ready again.
   */
  function Follow(l: Launches, s: State, a: Action): Launches {
    if a == AgentReads && s.agent == Ready && s.inbox != [] then
      if s.inbox[0] == LaunchDriverService(Started(ShellDriver)) then l.(last := Some(|s.sessions|))
      else if s.inbox[0] == LaunchDriverService(Started(HalDriver)) then l.(pending := Some(|s.sessions|))
      else l
    else if a == AgentReceives && s.agent.Waiting? && Step(s, a).agent == Ready && l.pending.Some? then
      Launches(None, l.pending)
    else l
  }

  function LaunchesOf(s: State, actions: seq<Action>, l: Launches): Launches
    decreases |actions|
  {
    if actions == [] then l else LaunchesOf(Step(s, actions[0]), actions[1..], Follow(l, s, actions[0]))
  }

  /** The client is the session of the last launch completed, and a launch is awaited exactly if one is under way. */
  predicate Follows(s: State, l: Launches) {
    && s.client == l.last
    && l.pending == if s.agent.Waiting? && s.agent.launching then Some(s.agent.session) else None
  }

  lemma ReadFollows(s: State, l: Launches)
    requires Follows(s, l)
    ensures Follows(ReadCommand(s), Follow(l, s, AgentReads))
  {
  }

  lemma ReceiveFollows(s: State, l: Launches)
    requires Follows(s, l)
    ensures Follows(ReceiveReply(s), Follow(l, s, AgentReceives))
  {
  }

  lemma StepFollows(s: State, a: Action, l: Launches)
    requires Follows(s, l)
    ensures Follows(Step(s, a), Follow(l, s, a))
  {
    match a
    case RunnerSends(_) =>
    case AgentReads => ReadFollows(s, l);
    case DriverServes(_) =>
    case AgentReceives => ReceiveFollows(s, l);
  }

  lemma {:induction false} RunFollows(s: State, actions: seq<Action>, l: Launches)
    requires Follows(s, l)
    ensures Follows(Run(s, actions), LaunchesOf(s, actions, l))
    decreases |actions|
  {
    hide Step;
    hide Follow;
    hide Follows;
    if actions != [] {
      StepFollows(s, actions[0], l);
      RunFollows(Step(s, actions[0]), actions[1..], Follow(l, s, actions[0]));
    }
  }

  /** After any run the client is the session of the launch completed last; nothing else changes it. */
  lemma ClientIsLastLaunch(actions: seq<Action>)
    ensures Run(START, actions).client == LaunchesOf(START, actions, Launches(None, None)).last
  {
    RunFollows(START, actions, Launches(None, None));
  }

  function UnderWay(s: State): nat {
    if s.agent.Waiting? then 1 else 0
  }

  lemma {:induction false} ResponseIdsLength(rs: seq<Response>)
    ensures |ResponseIds(rs)| == |rs|
    ensures forall k :: 0 <= k < |rs| ==> ResponseIds(rs)[k] == rs[k].answers
  {
    if rs != [] {
      ResponseIdsLength(rs[..|rs| - 1]);
    }
  }

  /** Commands below `n` that are skipped. */
  function SkippedBelow(n: nat, skipped: seq<nat>): nat {
    if n == 0 then 0 else SkippedBelow(n - 1, skipped) + if n - 1 in skipped then 1 else 0
  }

  lemma {:induction false} OwedLength(n: nat, skipped: seq<nat>)
    ensures |Owed(n, skipped)| == n - SkippedBelow(n, skipped)
  {
    if n > 0 {
      OwedLength(n - 1, skipped);
    }
  }

  /** In every reachable state: one response for each command read, except those skipped and the one under way. */
  lemma ResponsesCount(s: State)
    requires Inv(s)
    ensures |s.responses| + UnderWay(s) == s.handled - SkippedBelow(s.handled, s.skipped)
  {
    ResponseIdsLength(s.responses);
    OwedLength(s.handled, s.skipped);
  }

  lemma {:induction false} SkippedBelowStable(m: nat, n: nat, skipped: seq<nat>)
    requires m <= n && forall k :: 0 <= k < |skipped| ==> skipped[k] < m
    ensures SkippedBelow(n, skipped) == SkippedBelow(m, skipped)
    decreases n
  {
    if m < n {
      SkippedBelowStable(m, n - 1, skipped);
    }
  }

  lemma {:induction false} ClientStaysForever(s: State, actions: seq<Action>)
    requires Inv(s) && s.client.Some?
    ensures Run(s, actions).client.Some? && Run(s, actions).skipped == s.skipped
    ensures Run(s, actions).handled >= s.handled
    decreases |actions|
  {
    hide Inv;
    if actions != [] {
      StepKeepsInv(s, actions[0]);
      ClientStays(s, actions[0]);
      HandledGrows(s, actions[0]);
      ClientStaysForever(Step(s, actions[0]), actions[1..]);
    }
  }

  lemma HandledGrows(s: State, a: Action)
    ensures Step(s, a).handled >= s.handled
  {
  }

  /**
    From the moment a driver client is set, in every continuation: the client stays set, and
    each command read gets exactly one response before the next one is read.
   */
  lemma OneResponseEach(s: State, actions: seq<Action>)
    requires Inv(s) && s.client.Some?
    ensures var t := Run(s, actions);
            && t.client.Some? && t.agent != Ended
            && (|t.responses| + UnderWay(t)) - (|s.responses| + UnderWay(s)) == t.handled - s.handled
  {
    var t := Run(s, actions);
    RunKeepsInv(s, actions);
    ClientStaysForever(s, actions);
    ResponsesCount(s);
    ResponsesCount(t);
    SkippedBelowStable(s.handled, t.handled, s.skipped);
  }

  lemma {:induction false} OwedAscends(n: nat, skipped: seq<nat>)
    ensures forall k :: 0 <= k < |Owed(n, skipped)| ==> Owed(n, skipped)[k] < n
    ensures forall j, k :: 0 <= j < k < |Owed(n, skipped)| ==> Owed(n, skipped)[j] < Owed(n, skipped)[k]
  {
    if n > 0 {
      OwedAscends(n - 1, skipped);
    }
  }

  /** After every run: responses come in command order, none twice, and a relayed reply belongs to its command. */
  lemma ResponsesMatch(actions: seq<Action>, j: nat, k: nat)
    requires j <= k < |Run(START, actions).responses|
    ensures var rs := Run(START, actions).responses;
            && (j < k ==> rs[j].answers < rs[k].answers)
            && (rs[k].relays.Some? ==> rs[k].relays.value == rs[k].answers)
  {
    var s := Run(START, actions);
    AlwaysInv(actions);
    ResponseIdsLength(s.responses);
    OwedAscends(s.handled, s.skipped);
    assert ResponseIds(s.responses)[j] == Answered(s)[j] && ResponseIds(s.responses)[k] == Answered(s)[k];
  }

  /** A driver that replies to, or closes on, a request. */
  predicate Reacts(kind: DriverKind, what: DriverRequest) {
    kind == HalDriver || what == ExecuteCommand
  }

  /** The agent gets past a request once the driver has served it exactly if the driver reacts to it. */
  lemma AnsweredIffReacts(s: State)
    requires Inv(s) && s.agent.Waiting? && s.sessions[s.agent.session].requests != []
    ensures var i := s.agent.session;
            var what := s.sessions[i].requests[0].what;
            ReceiveReply(Step(s, DriverServes(i))).agent == Ready <==> Reacts(s.sessions[i].kind, what)
  {
    hide Owed;
    hide ResponseIds;
    hide Answered;
  }

  /** Waiting on a HAL driver never gets stuck: the driver can serve, or the agent can go on. */
  lemma HalNeverStrands(s: State)
    requires Inv(s) && s.agent.Waiting? && s.sessions[s.agent.session].kind == HalDriver
    ensures ReceiveReply(Step(s, DriverServes(s.agent.session))).agent == Ready
  {
    hide Owed;
    hide ResponseIds;
    hide Answered;
  }

  /** No driver has gone, and no shell command is on its way to one. */
  predicate AllOpen(s: State) {
    && (forall k :: 0 <= k < |s.inbox| ==> s.inbox[k] != ExecuteShellCommand)
    && (forall i :: 0 <= i < |s.sessions| ==> OpenWithoutShell(s.sessions[i]))
  }

  predicate OpenWithoutShell(d: Session) {
    d.open && forall k :: 0 <= k < |d.requests| ==> d.requests[k].what != ExecuteCommand
  }

  lemma ServeStaysOpen(d: Session)
    requires OpenWithoutShell(d)
    ensures OpenWithoutShell(Serve(d))
  {
  }

  lemma SendStaysOpen(s: State, i: nat, r: Request)
    requires AllOpen(s) && i < |s.sessions| && r.what != ExecuteCommand
    ensures AllOpen(SendTo(s, i, r))
  {
    assert OpenWithoutShell(s.sessions[i]);
  }

  lemma ReadStaysOpen(s: State)
    requires AllOpen(s)
    ensures AllOpen(ReadCommand(s))
  {
    hide OpenWithoutShell;
    hide SendTo;
    if s.agent == Ready && s.inbox != [] {
      var t, kind := s.(inbox := s.inbox[1..], handled := s.handled + 1), s.inbox[0];
      assert AllOpen(t);
      if kind.LaunchDriverService? && kind.plan.Started? {
        var u := Open(t, kind.plan.kind);
        FreshStaysOpen(t, kind.plan.kind);
        SendStaysOpen(u, |s.sessions|, Request(s.handled, LoadHal));
      } else if Relayed(kind).Some? && s.client.Some? && s.client.value < |s.sessions| {
        SendStaysOpen(t, s.client.value, Request(s.handled, Relayed(kind).value));
      }
    }
  }

  lemma FreshStaysOpen(s: State, kind: DriverKind)
    requires AllOpen(s)
    ensures AllOpen(Open(s, kind))
  {
    assert OpenWithoutShell(Session(kind, [], [], true));
  }

  lemma StepStaysOpen(s: State, a: Action)
    requires AllOpen(s) && a != RunnerSends(ExecuteShellCommand)
    ensures AllOpen(Step(s, a))
  {
    match a
    case RunnerSends(_) =>
    case AgentReads => ReadStaysOpen(s);
    case DriverServes(i) =>
      if i < |s.sessions| {
        ServeStaysOpen(s.sessions[i]);
      }
    case AgentReceives =>
  }

  /** In a run without shell commands no driver session is ever closed: nothing is written to a gone driver. */
  lemma {:induction false} OpenWithoutShellCommands(s: State, actions: seq<Action>)
    requires AllOpen(s) && RunnerSends(ExecuteShellCommand) !in actions
    ensures AllOpen(Run(s, actions))
    decreases |actions|
  {
    hide AllOpen;
    hide Step;
    if actions != [] {
      StepStaysOpen(s, actions[0]);
      OpenWithoutShellCommands(Step(s, actions[0]), actions[1..]);
    }
  }

  /** The step in which a HAL driver serves a shell command, which it does not know. */
  predicate ServesShell(s: State, a: Action, i: nat) {
    && a == DriverServes(i) && i < |s.sessions|
    && var d := s.sessions[i];
       d.kind == HalDriver && d.open && d.requests != [] && d.requests[0].what == ExecuteCommand
  }

  /** Session `i` is that of a HAL driver which serves a shell command in the course of the run. */
  predicate ServedShell(s: State, actions: seq<Action>, i: nat)
    decreases |actions|
  {
    actions != [] && (ServesShell(s, actions[0], i) || ServedShell(Step(s, actions[0]), actions[1..], i))
  }

  predicate ClosedAt(s: State, i: nat) {
    i < |s.sessions| && !s.sessions[i].open
  }

  lemma ReadNeverCloses(s: State, i: nat)
    ensures |s.sessions| <= |ReadCommand(s).sessions|
    ensures ClosedAt(ReadCommand(s), i) <==> ClosedAt(s, i)
  {
  }

  lemma ReceiveNeverCloses(s: State, i: nat)
    ensures ClosedAt(ReceiveReply(s), i) <==> ClosedAt(s, i)
  {
  }

  /** One step closes a session exactly by serving a shell command to a HAL driver, and none opens one again. */
  lemma StepClosesIff(s: State, a: Action, i: nat)
    ensures ClosedAt(Step(s, a), i) <==> ClosedAt(s, i) || ServesShell(s, a, i)
  {
    hide ReadCommand;
    hide ReceiveReply;
    match a
    case RunnerSends(_) =>
    case AgentReads => ReadNeverCloses(s, i);
    case DriverServes(_) =>
    case AgentReceives => ReceiveNeverCloses(s, i);
  }

  /** After any run a session is closed if and only if it was, or its HAL driver has served a shell command. */
  lemma {:induction false} ClosedIffServedShell(s: State, actions: seq<Action>, i: nat)
    ensures ClosedAt(Run(s, actions), i) <==> ClosedAt(s, i) || ServedShell(s, actions, i)
    decreases |actions|
  {
    hide ClosedAt;
    hide Step;
    hide ServesShell;
    if actions != [] {
      StepClosesIff(s, actions[0], i);
      ClosedIffServedShell(Step(s, actions[0]), actions[1..], i);
    }
  }

  /**
    After any run, a command relayed to the client is written to a driver that has gone, and
    lost, if and only if the client is a HAL driver that has served a shell command before.
   */
  lemma LostIffServedShell(actions: seq<Action>)
    requires var s := Run(START, actions);
             s.agent == Ready && s.inbox != [] && s.client.Some? && Relayed(s.inbox[0]).Some?
    ensures var s := Run(START, actions);
            ReadCommand(s).sessions == s.sessions <==> ServedShell(START, actions, s.client.value)
  {
    hide Relayed;
    hide Handle;
    hide Run;
    var s := Run(START, actions);
    AlwaysInv(actions);
    ClientInRange(s);
    ClosedIffServedShell(START, actions, s.client.value);
    LaunchNotRelayed(s.inbox[0]);
    HandleRelayed(s.(inbox := s.inbox[1..], handled := s.handled + 1), s.inbox[0], s.handled);
    SendLostIff(s.sessions[s.client.value].requests, Request(s.handled, Relayed(s.inbox[0]).value));
  }

  lemma SendLostIff(requests: seq<Request>, r: Request)
    ensures requests + [r] != requests
  {
  }

  /** The agent waits for a shell driver that has already dropped the request. */
  predicate Stranded(s: State) {
    && s.agent.Waiting? && s.agent.session < |s.sessions|
    && var d := s.sessions[s.agent.session];
       d.kind == ShellDriver && d.open && Quiet(d)
  }

  /** A HAL command sent to a shell driver leaves the agent waiting for ever. */
  lemma {:induction false} StrandedForever(s: State, actions: seq<Action>)
    requires Stranded(s)
    ensures Run(s, actions).agent == s.agent && Run(s, actions).responses == s.responses
    decreases |actions|
  {
    if actions != [] {
      assert Stranded(Step(s, actions[0])) && Step(s, actions[0]).agent == s.agent;
      StrandedForever(Step(s, actions[0]), actions[1..]);
    }
  }

  lemma ShellDriverStrands()
    ensures Stranded(Run(START, [RunnerSends(LaunchDriverService(Started(ShellDriver))), AgentReads,
                                 RunnerSends(CallApi), AgentReads, DriverServes(0)]))
  {
    var s1 := Step(START, RunnerSends(LaunchDriverService(Started(ShellDriver))));
    var s2 := Step(s1, AgentReads);
    assert s2.client == Some(0) && s2.sessions == [Session(ShellDriver, [], [], true)] && s2.agent == Ready;
    var s3 := Step(s2, RunnerSends(CallApi));
    var s4 := Step(s3, AgentReads);
    assert s4.agent == Waiting(1, 0, false) && s4.sessions[0].requests == [Request(1, CallFunction)];
    var s5 := Step(s4, DriverServes(0));
    assert Stranded(s5);
    hide Step;
    hide Stranded;
    assert Run(s4, [DriverServes(0)]) == s5;
    assert Run(s3, [AgentReads, DriverServes(0)]) == s5;
    assert Run(s2, [RunnerSends(CallApi), AgentReads, DriverServes(0)]) == s5;
    assert Run(s1, [AgentReads, RunnerSends(CallApi), AgentReads, DriverServes(0)]) == s5;
  }
}
