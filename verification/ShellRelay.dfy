/**
  Shell commands from the host to the shell driver and back: the driver executes each
  command of a batch in order and collects its results, the agent copies the response, and
  the host takes the lists out of it.  The agent reads the next batch only when it has the
  driver's reply to the last one or knows that there will be none.
 */
module ShellRelay {
  import opened Options

  datatype CommandResult = CommandResult(stdout: string, stderr: string, exitCode: int)

  datatype Message = Exit | Execute(commands: seq<string>) | Other

  datatype DriverCode = DriverSuccess | DriverFail | DriverUnknown
  datatype AgentCode = Success | Fail | UnknownCode

  datatype DriverResponse =
    DriverResponse(code: DriverCode, stdout: seq<string>, stderr: seq<string>, exitCodes: seq<int>)

  datatype AgentResponse =
    AgentResponse(code: AgentCode, stdout: seq<string>, stderr: seq<string>, exitCodes: seq<int>)

  /** What becomes of a response: it arrives, or the send fails with the connection still open or gone. */
  datatype Sending = Sent | Unsent | Lost

  /** The device: what the k-th command executed in a session produces, and how the b-th response fares. */
  datatype Device = Device(execute: (nat, string) -> CommandResult, sends: nat -> Sending, closes: bool)

  // ---- The driver ---------------------------------------------------------------------------------------

  /** Entry `i` belongs to command `i`, the `(k + i)`-th of the session. */
  predicate ResultsOf(r: DriverResponse, commands: seq<string>, device: Device, k: nat) {
    && |r.stdout| == |r.stderr| == |r.exitCodes| == |commands|
    && forall i :: 0 <= i < |commands| ==>
         CommandResult(r.stdout[i], r.stderr[i], r.exitCodes[i]) == device.execute(k + i, commands[i])
  }

  /** Commands of a batch that end with a non-zero code. */
  function FailedCommands(commands: seq<string>, device: Device, k: nat): nat {
    if commands == [] then 0
    else
      var last := |commands| - 1;
      FailedCommands(commands[..last], device, k)
      + if device.execute(k + last, commands[last]).exitCode != 0 then 1 else 0
  }

  method ExecuteBatch(commands: seq<string>, device: Device, k: nat) returns (r: DriverResponse, failed: nat)
    ensures r.code == DriverSuccess && ResultsOf(r, commands, device, k)
    ensures failed == FailedCommands(commands, device, k)
  {
    hide ResultsOf;
    hide FailedCommands;
    r, failed := DriverResponse(DriverSuccess, [], [], []), 0;
    NoResults(r, device, k);
    for i := 0 to |commands|
      invariant r.code == DriverSuccess && ResultsOf(r, commands[..i], device, k)
      invariant failed == FailedCommands(commands[..i], device, k)
    {
      var result := device.execute(k + i, commands[i]);
      OneMoreResult(r, commands, i, device, k);
      r := Extended(r, result);
      if result.exitCode != 0 { failed := failed + 1; }
    }
    assert commands[..|commands|] == commands;
  }

  function Extended(r: DriverResponse, c: CommandResult): DriverResponse {
    DriverResponse(r.code, r.stdout + [c.stdout], r.stderr + [c.stderr], r.exitCodes + [c.exitCode])
  }

  lemma NoResults(r: DriverResponse, device: Device, k: nat)
    requires r.stdout == [] && r.stderr == [] && r.exitCodes == []
    ensures ResultsOf(r, [], device, k) && FailedCommands([], device, k) == 0
  {
  }

  lemma OneMoreResult(r: DriverResponse, commands: seq<string>, i: nat, device: Device, k: nat)
    requires i < |commands| && ResultsOf(r, commands[..i], device, k)
    ensures ResultsOf(Extended(r, device.execute(k + i, commands[i])), commands[..i + 1], device, k)
    ensures FailedCommands(commands[..i + 1], device, k)
         == FailedCommands(commands[..i], device, k) + if device.execute(k + i, commands[i]).exitCode != 0 then 1 else 0
  {
    assert commands[..i + 1][..i] == commands[..i];
  }

  /** The commands of the messages before the first exit, batch by batch. */
  function Batches(inbox: seq<Message>): seq<seq<string>> {
    if inbox == [] || inbox[0].Exit? then []
    else (if inbox[0].Execute? then [inbox[0].commands] else []) + Batches(inbox[1..])
  }

  function Size(batches: seq<seq<string>>): nat {
    if batches == [] then 0 else Size(batches[..|batches| - 1]) + |batches[|batches| - 1]|
  }

  /** Failed commands and failed sends over a list of batches. */
  function Failures(batches: seq<seq<string>>, device: Device): nat {
    if batches == [] then 0
    else
      var last := |batches| - 1;
      Failures(batches[..last], device) + FailedCommands(batches[last], device, Size(batches[..last]))
      + if device.sends(last) == Sent then 0 else 1
  }

  /** A reply to a batch: its results if the driver could send them, nothing otherwise. */
  predicate Answers(reply: Option<DriverResponse>, batch: seq<string>, device: Device, k: nat, sending: Sending) {
    && (reply.Some? <==> sending == Sent)
    && (sending == Sent ==> reply.value.code == DriverSuccess && ResultsOf(reply.value, batch, device, k))
  }

  /** Reply `b` answers batch `b`; commands are numbered through the session. */
  predicate AllAnswered(replies: seq<Option<DriverResponse>>, batches: seq<seq<string>>, device: Device) {
    && |replies| == |batches|
    && forall b :: 0 <= b < |batches| ==> Answers(replies[b], batches[b], device, Size(batches[..b]), device.sends(b))
  }

  /** One pass of the command loop for a batch: executes it and tries to send the results. */
  method ServeBatch(commands: seq<string>, device: Device, k: nat, b: nat)
    returns (reply: Option<DriverResponse>, failed: nat)
    ensures Answers(reply, commands, device, k, device.sends(b))
    ensures failed == FailedCommands(commands, device, k) + if device.sends(b) == Sent then 0 else 1
  {
    var r;
    r, failed := ExecuteBatch(commands, device, k);
    reply := Some(r);
    if device.sends(b) != Sent {
      failed := failed + 1;
      reply := None;
    }
  }

  /**
    The command loop of a connection on which these messages arrive while it lasts.  A receive
    failure ends it with -1, also the one that follows when the connection is gone; an exit
    message ends it with minus the number of failed commands, failed sends and a failed close.
    The batches executed are all before the exit, up to the one with which the connection went.
   */
  method HandleShellCommandConnection(inbox: seq<Message>, device: Device)
    returns (status: int, replies: seq<Option<DriverResponse>>)
    ensures var batches := Batches(inbox);
            && |replies| <= |batches|
            && AllAnswered(replies, batches[..|replies|], device)
            && (forall b :: 0 <= b < |replies| - 1 ==> device.sends(b) != Lost)
            && (|replies| < |batches| ==> replies != [] && device.sends(|replies| - 1) == Lost)
            && status == if Exit in inbox && (replies == [] || device.sends(|replies| - 1) != Lost)
                         then -(Failures(batches, device) + if device.closes then 0 else 1) else -1
  {
    hide ResultsOf;
    hide Answers;
    hide FailedCommands;
    hide Batches;
    hide Size;
    hide Failures;
    hide AllAnswered;
    var failures: int, executed: nat := 0, 0;
    ghost var done: seq<seq<string>> := [];
    replies := [];
    NothingDone(inbox, device);
    for i := 0 to |inbox|
      invariant Exit !in inbox[..i]
      invariant Batches(inbox) == done + Batches(inbox[i..])
      invariant AllAnswered(replies, done, device) && |replies| == |done|
      invariant forall b :: 0 <= b < |replies| ==> device.sends(b) != Lost
      invariant failures == Failures(done, device) && executed == Size(done)
    {
      BatchesAt(inbox, done, i);
      if inbox[i] == Exit {
        if !device.closes { failures := failures + 1; }
        assert Batches(inbox)[..|done|] == done;
        return -failures, replies;
      }
      if inbox[i].Execute? {
        var reply, failed := ServeBatch(inbox[i].commands, device, executed, |replies|);
        failures := failures + failed;
        NextBatch(done, inbox[i].commands, device);
        OneMoreAnswered(replies, done, device, reply, inbox[i].commands);
        replies := replies + [reply];
        executed := executed + |inbox[i].commands|;
        done := done + [inbox[i].commands];
        if device.sends(|replies| - 1) == Lost {
          assert Batches(inbox)[..|done|] == done;
          return -1, replies;
        }
      }
    }
    AllRead(inbox, done);
    assert done[..|done|] == done;
    status := -1;
  }

  lemma NothingDone(inbox: seq<Message>, device: Device)
    ensures Batches(inbox) == [] + Batches(inbox[0..])
    ensures AllAnswered([], [], device) && Failures([], device) == 0 && Size([]) == 0
  {
    assert inbox[0..] == inbox;
  }

  /** What message `i` contributes to the batches. */
  lemma BatchesAt(inbox: seq<Message>, done: seq<seq<string>>, i: nat)
    requires i < |inbox|
    ensures done + Batches(inbox[i..]) ==
            match inbox[i]
            case Exit => done
            case Execute(commands) => (done + [commands]) + Batches(inbox[i + 1..])
            case Other => done + Batches(inbox[i + 1..])
  {
    var left := inbox[i..];
    assert left[0] == inbox[i] && left[1..] == inbox[i + 1..];
    var rest := Batches(inbox[i + 1..]);
    match inbox[i]
    case Exit =>
    case Execute(commands) => assert done + ([commands] + rest) == (done + [commands]) + rest;
    case Other => assert [] + rest == rest;
  }

  lemma AllRead(inbox: seq<Message>, done: seq<seq<string>>)
    ensures done + Batches(inbox[|inbox|..]) == done && inbox[..|inbox|] == inbox
  {
  }

  lemma NextBatch(done: seq<seq<string>>, batch: seq<string>, device: Device)
    ensures Size(done + [batch]) == Size(done) + |batch|
    ensures Failures(done + [batch], device)
         == Failures(done, device) + FailedCommands(batch, device, Size(done))
            + if device.sends(|done|) == Sent then 0 else 1
  {
    assert (done + [batch])[..|done|] == done;
  }

  lemma OneMoreAnswered(replies: seq<Option<DriverResponse>>, done: seq<seq<string>>, device: Device,
                        reply: Option<DriverResponse>, batch: seq<string>)
    requires AllAnswered(replies, done, device)
    requires Answers(reply, batch, device, Size(done), device.sends(|done|))
    ensures AllAnswered(replies + [reply], done + [batch], device)
  {
    hide Answers;
    hide Size;
    forall b | 0 <= b <= |done|
      ensures (done + [batch])[..b] == done[..b]
    {
    }
    assert done[..|done|] == done;
  }

  // ---- The agent and the host ---------------------------------------------------------------------------

  method CopyStrings(from: seq<string>) returns (to: seq<string>)
    ensures to == from
  {
    to := [];
    for i := 0 to |from|
      invariant to == from[..i]
    {
      to := to + [from[i]];
    }
  }

  function AgentCodeOf(code: DriverCode): AgentCode {
    match code
    case DriverSuccess => Success
    case DriverFail => Fail
    case DriverUnknown => UnknownCode
  }

  method CreateSystemControlResponse(d: DriverResponse) returns (a: AgentResponse)
    ensures a == AgentResponse(AgentCodeOf(d.code), d.stdout, d.stderr, d.exitCodes)
  {
    var code := if d.code == DriverSuccess then Success else if d.code == DriverFail then Fail else UnknownCode;
    var stdout := CopyStrings(d.stdout);
    var stderr := CopyStrings(d.stderr);
    var codes: seq<int> := [];
    for i := 0 to |d.exitCodes|
      invariant codes == d.exitCodes[..i]
    {
      codes := codes + [d.exitCodes[i]];
    }
    a := AgentResponse(code, stdout, stderr, codes);
  }

  /** The agent's response to a shell command: the driver's reply, or a failure when there was none. */
  method ExecuteShellCommand(reply: Option<DriverResponse>) returns (a: AgentResponse)
    ensures a.code == Success <==> reply.Some? && reply.value.code == DriverSuccess
    ensures reply.Some? ==>
              a.stdout == reply.value.stdout && a.stderr == reply.value.stderr && a.exitCodes == reply.value.exitCodes
    ensures reply == None ==> a == AgentResponse(Fail, [], [], [])
  {
    if reply == None { return AgentResponse(Fail, [], [], []); }
    a := CreateSystemControlResponse(reply.value);
  }

  const NO_RESPONSE: string := "Framework error: TCP client did not receive response from device."
  const FAIL_RESPONSE: string := "Framework error: TCP client received unsuccessful response code."

  /** Exit codes as the host returns them: a list, or a single number after a failure. */
  datatype ExitCodes = Each(codes: seq<int>) | Single(code: int)

  datatype HostOutput =
    HostOutput(stdout: seq<string>, stderr: seq<string>, exitCodes: ExitCodes, error: Option<string>)

  function Failure(text: string): HostOutput {
    HostOutput([], [text], Single(-1), Some(text))
  }

  /** What the host returns for a batch; no response means that its receive timed out for the last time. */
  method HostResult(resp: Option<AgentResponse>) returns (out: HostOutput)
    ensures out.error == None <==> resp.Some? && resp.value.code == Success
    ensures out.error == None ==>
              out == HostOutput(resp.value.stdout, resp.value.stderr, Each(resp.value.exitCodes), None)
    ensures out.error != None ==> out == Failure(if resp == None then NO_RESPONSE else FAIL_RESPONSE)
  {
    var stdout: seq<string>, stderr: seq<string>, exitCodes, error := [], [], Single(-1), None;
    if resp == None {
      stderr := [NO_RESPONSE];
      error := Some(NO_RESPONSE);
    } else if resp.value.code != Success {
      stderr := [FAIL_RESPONSE];
      error := Some(FAIL_RESPONSE);
    } else {
      stdout, stderr, exitCodes := resp.value.stdout, resp.value.stderr, Each(resp.value.exitCodes);
    }
    out := HostOutput(stdout, stderr, exitCodes, error);
  }

  // ---- Whole sessions -------------------------------------------------------------------------------------

  /** How things stand once batch `b` was due: as after the first response that did not arrive, if there was one. */
  function Standing(device: Device, b: nat): Sending {
    if b > 0 && Standing(device, b - 1) != Sent then Standing(device, b - 1) else device.sends(b)
  }

  /** All batches before `b` were answered by the driver. */
  predicate AnsweredBefore(device: Device, b: nat) {
    forall c :: 0 <= c < b ==> device.sends(c) == Sent
  }

  lemma {:induction false} StandingSent(device: Device, b: nat)
    ensures Standing(device, b) == Sent <==> AnsweredBefore(device, b + 1)
  {
    if b > 0 {
      StandingSent(device, b - 1);
    }
  }

  lemma {:induction false} StandingStays(device: Device, f: nat, b: nat)
    requires f <= b && AnsweredBefore(device, f) && device.sends(f) != Sent
    ensures Standing(device, b) == device.sends(f)
    decreases b
  {
    if f < b {
      StandingStays(device, f, b - 1);
    } else if b > 0 {
      StandingSent(device, b - 1);
    }
  }

  lemma {:induction false} StandingBegan(device: Device, b: nat) returns (f: nat)
    requires Standing(device, b) != Sent
    ensures f <= b && AnsweredBefore(device, f) && device.sends(f) == Standing(device, b)
  {
    if b > 0 && Standing(device, b - 1) != Sent {
      f := StandingBegan(device, b - 1);
    } else {
      f := b;
      if b > 0 {
        StandingSent(device, b - 1);
      }
    }
  }

  /** Batch `b` is due after a response could not be sent on a connection that stayed open. */
  ghost predicate Blocked(device: Device, b: nat) {
    exists f :: 0 <= f <= b && AnsweredBefore(device, f) && device.sends(f) == Unsent
  }

  lemma BlockedIff(device: Device, b: nat)
    ensures Blocked(device, b) <==> Standing(device, b) == Unsent
  {
    if Standing(device, b) == Unsent {
      var f := StandingBegan(device, b);
    }
    if Blocked(device, b) {
      var f :| 0 <= f <= b && AnsweredBefore(device, f) && device.sends(f) == Unsent;
      StandingStays(device, f, b);
    }
  }

  /** The output for a batch whose first command is number `k` of the session. */
  predicate OutputOf(out: HostOutput, batch: seq<string>, device: Device, k: nat, standing: Sending) {
    match standing
    case Sent =>
      && out.error == None && out.exitCodes.Each?
      && |out.stdout| == |out.stderr| == |out.exitCodes.codes| == |batch|
      && forall i :: 0 <= i < |batch| ==>
           CommandResult(out.stdout[i], out.stderr[i], out.exitCodes.codes[i]) == device.execute(k + i, batch[i])
    case Lost => out == Failure(FAIL_RESPONSE)
    case Unsent => out == Failure(NO_RESPONSE)
  }

  /** The driver's response that a successful answer of the agent passes on. */
  function Passed(a: AgentResponse): DriverResponse {
    DriverResponse(DriverSuccess, a.stdout, a.stderr, a.exitCodes)
  }

  /**
    What the agent does with a batch.  While the driver answers, it passes the batch on and
    takes the reply.  When the connection is gone, its call fails and it says so.  When a
    response could not be sent on an open connection, it waits for that response for ever, and
    neither answers nor reads another batch.
   */
  method RelayBatch(commands: seq<string>, device: Device, k: nat, b: nat, before: Sending)
    returns (answer: Option<AgentResponse>, after: Sending, executed: nat)
    ensures after == if before == Sent then device.sends(b) else before
    ensures executed == if before == Sent then |commands| else 0
    ensures answer == None <==> after == Unsent
    ensures after == Lost ==> answer == Some(AgentResponse(Fail, [], [], []))
    ensures after == Sent ==>
              && answer.value.code == Success
              && ResultsOf(Passed(answer.value), commands, device, k)
  {
    after, executed := before, 0;
    var reply := None;
    if before == Sent {
      var failed;
      reply, failed := ServeBatch(commands, device, k, b);
      executed, after := |commands|, device.sends(b);
    }
    if after == Unsent { return None, after, executed; }
    var response := ExecuteShellCommand(reply);
    answer := Some(response);
  }

  /** What the host side sees of batch `b`. */
  ghost predicate Concluded(answer: Option<AgentResponse>, out: HostOutput, batches: seq<seq<string>>,
                            device: Device, b: nat)
    requires b < |batches|
  {
    && (answer == None <==> Blocked(device, b))
    && (out.error == None <==> AnsweredBefore(device, b + 1))
    && OutputOf(out, batches[b], device, Size(batches[..b]), Standing(device, b))
  }

  /** The batches that reached the driver: all up to the first whose response did not arrive. */
  predicate Reached(device: Device, served: nat, n: nat) {
    && served <= n && AnsweredBefore(device, served - if served == 0 then 0 else 1)
    && (served < n ==> served > 0 && device.sends(served - 1) != Sent)
  }

  /**
    End to end, for every list of batches a host sends: batch `b` gives its results if and
    only if every response up to its own could be sent; behind a connection that is gone it
    gives the agent's failure; and it is never answered, so that the host ends its wait with
    nothing, if and only if a response before it or its own stayed unsent on an open
    connection.  The driver executes no batch behind the first response that did not arrive.
   */
  method RunSession(batches: seq<seq<string>>, device: Device)
    returns (answers: seq<Option<AgentResponse>>, outs: seq<HostOutput>, executed: nat, ghost served: nat)
    ensures |answers| == |outs| == |batches|
    ensures forall b :: 0 <= b < |batches| ==> Concluded(answers[b], outs[b], batches, device, b)
    ensures Reached(device, served, |batches|) && executed == Size(batches[..served])
  {
    hide Size;
    hide Reached;
    hide Concluded;
    hide Standing;
    answers, outs, executed, served := [], [], 0, 0;
    var standing := Sent;
    StartOfSession(batches, device);
    for b := 0 to |batches|
      invariant |answers| == |outs| == b
      invariant standing == if b == 0 then Sent else Standing(device, b - 1)
      invariant forall c :: 0 <= c < b ==> Concluded(answers[c], outs[c], batches, device, c)
      invariant served <= b && Reached(device, served, b) && executed == Size(batches[..served])
      invariant standing == Sent ==> served == b
    {
      StandingNext(device, b);
      ReachedNext(batches, device, served, b);
      var answer, out, more;
      ghost var before := standing;
      answer, out, standing, more := Deliver(batches[b], batches, device, executed, b, standing);
      executed := executed + more;
      if before == Sent { served := b + 1; }
      answers, outs := answers + [answer], outs + [out];
    }
  }

  /** One batch, from the host to the driver and back. */
  method Deliver(batch: seq<string>, ghost batches: seq<seq<string>>, device: Device, k: nat, b: nat, before: Sending)
    returns (answer: Option<AgentResponse>, out: HostOutput, after: Sending, executed: nat)
    requires b < |batches| && batch == batches[b]
    requires before == if b == 0 then Sent else Standing(device, b - 1)
    requires before == Sent ==> k == Size(batches[..b])
    ensures Concluded(answer, out, batches, device, b) && after == Standing(device, b)
    ensures executed == if before == Sent then |batch| else 0
  {
    hide Size;
    hide ResultsOf;
    hide Concluded;
    hide Standing;
    StandingNext(device, b);
    answer, after, executed := RelayBatch(batch, device, k, b, before);
    out := HostResult(answer);
    OutputFits(answer, out, batches, device, b);
  }

  lemma StartOfSession(batches: seq<seq<string>>, device: Device)
    ensures Size(batches[..0]) == 0 && Reached(device, 0, 0)
  {
  }

  lemma StandingNext(device: Device, b: nat)
    ensures Standing(device, b) ==
            if b > 0 && Standing(device, b - 1) != Sent then Standing(device, b - 1) else device.sends(b)
  {
  }

  /** A batch is added to those that reached the driver, or not. */
  lemma ReachedNext(batches: seq<seq<string>>, device: Device, served: nat, b: nat)
    requires b < |batches| && Reached(device, served, b)
    requires b == 0 || Standing(device, b - 1) == Sent ==> served == b
    ensures if b == 0 || Standing(device, b - 1) == Sent
            then Reached(device, b + 1, b + 1) && Size(batches[..b + 1]) == Size(batches[..b]) + |batches[b]|
            else Reached(device, served, b + 1)
  {
    if b > 0 {
      StandingSent(device, b - 1);
    }
    assert batches[..b + 1][..b] == batches[..b];
  }

  /** The agent's answer and what the host makes of it conclude the batch. */
  lemma OutputFits(answer: Option<AgentResponse>, out: HostOutput, batches: seq<seq<string>>, device: Device, b: nat)
    requires b < |batches|
    requires answer == None <==> Standing(device, b) == Unsent
    requires Standing(device, b) == Lost ==> answer.value.code == Fail
    requires Standing(device, b) == Sent ==>
               && answer.value.code == Success
               && ResultsOf(Passed(answer.value), batches[b], device, Size(batches[..b]))
    requires out == if Standing(device, b) == Sent
                    then HostOutput(answer.value.stdout, answer.value.stderr, Each(answer.value.exitCodes), None)
                    else Failure(if answer == None then NO_RESPONSE else FAIL_RESPONSE)
    ensures Concluded(answer, out, batches, device, b)
  {
    hide Size;
    hide Standing;
    hide Blocked;
    hide AnsweredBefore;
    StandingSent(device, b);
    BlockedIff(device, b);
  }

  // ---- Numbering ------------------------------------------------------------------------------------------

  /** All commands of a session, in order. */
  function Flat(batches: seq<seq<string>>): seq<string> {
    if batches == [] then [] else Flat(batches[..|batches| - 1]) + batches[|batches| - 1]
  }

  /** Command `i` of batch `b` is command `Size(batches[..b]) + i` of the session. */
  lemma {:induction false} NumberedInOrder(batches: seq<seq<string>>, b: nat, i: nat)
    requires b < |batches| && i < |batches[b]|
    ensures Size(batches[..b]) + i < |Flat(batches)| == Size(batches)
    ensures Flat(batches)[Size(batches[..b]) + i] == batches[b][i]
    decreases |batches|
  {
    var last := |batches| - 1;
    FlatSize(batches[..last]);
    if b < last {
      NumberedInOrder(batches[..last], b, i);
      assert batches[..last][..b] == batches[..b];
    }
  }

  lemma {:induction false} FlatSize(batches: seq<seq<string>>)
    ensures |Flat(batches)| == Size(batches)
  {
    if batches != [] {
      FlatSize(batches[..|batches| - 1]);
    }
  }

  // ---- What the status counts -----------------------------------------------------------------------------

  /** The positions of the commands, numbered from `k` on, that end with a non-zero code. */
  function FailedAt(commands: seq<string>, device: Device, k: nat): set<nat> {
    set i: nat | i < |commands| && device.execute(k + i, commands[i]).exitCode != 0
  }

  lemma FailedAtNext(commands: seq<string>, device: Device, k: nat)
    requires commands != []
    ensures var last := |commands| - 1;
            FailedAt(commands, device, k)
            == FailedAt(commands[..last], device, k)
               + if device.execute(k + last, commands[last]).exitCode != 0 then {last} else {}
  {
  }

  lemma {:induction false} FailedCommandsCount(commands: seq<string>, device: Device, k: nat)
    ensures FailedCommands(commands, device, k) == |FailedAt(commands, device, k)|
    decreases |commands|
  {
    if commands != [] {
      var last := |commands| - 1;
      FailedCommandsCount(commands[..last], device, k);
      FailedAtNext(commands, device, k);
      assert last !in FailedAt(commands[..last], device, k);
    } else {
      assert FailedAt(commands, device, k) == {};
    }
  }

  /** Responses that did not arrive, among the first `n`. */
  function FailedSends(n: nat, device: Device): set<nat> {
    set b: nat | 0 <= b < n && device.sends(b) != Sent
  }

  lemma {:induction false} FailedCommandsConcat(l: seq<string>, m: seq<string>, device: Device, k: nat)
    ensures FailedCommands(l + m, device, k) == FailedCommands(l, device, k) + FailedCommands(m, device, k + |l|)
    decreases |m|
  {
    if m == [] {
      assert l + m == l;
    } else {
      var last := |m| - 1;
      assert (l + m)[..|l + m| - 1] == l + m[..last];
      FailedCommandsConcat(l, m[..last], device, k);
    }
  }

  /** Failures are the failed commands of the whole session, numbered through, and the responses that did not arrive. */
  lemma {:induction false} FailuresCount(batches: seq<seq<string>>, device: Device)
    ensures Failures(batches, device) == FailedCommands(Flat(batches), device, 0) + |FailedSends(|batches|, device)|
    decreases |batches|
  {
    hide FailedCommands;
    if batches != [] {
      var last := |batches| - 1;
      var front := batches[..last];
      FailuresCount(front, device);
      FlatSize(front);
      FailedCommandsConcat(Flat(front), batches[last], device, 0);
      assert FailedSends(|batches|, device)
          == FailedSends(last, device) + if device.sends(last) != Sent then {last} else {};
    } else {
      NoFailures(device);
    }
  }

  lemma NoFailures(device: Device)
    ensures FailedCommands(Flat([]), device, 0) == 0 && FailedSends(0, device) == {}
  {
  }
}
