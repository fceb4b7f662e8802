/**
  The client and the server as programs on two sockets, and why everything they do
  is a run of the model in Runs: the calls of src/ads.c and the rounds of the loop
  in examples/ADSserver.c, in any order.
 */
module Program {
  import opened Bytes
  import opened AdsH
  import opened Kernel
  import opened AdsIo
  import opened Requests
  import opened Ads
  import opened AdsServer
  import opened Framing
  import opened EndToEnd
  import opened Runs
  import opened Alignment

  /** A reply that a call read, and the invokeId that the connection had. */
  datatype Got = Got(id: nat, rc: int, image: seq<byte>)

  /**
    A connection with its socket and the server with its socket.  The inputs of the
    sockets are all that will ever come.  `clientTook` and `serverTook` count the
    bytes taken so far, `sent`, `failed` and `got` record the calls.
   */
  datatype State = State(
    invokeId: nat, waiting: bool, image: seq<byte>, client: Socket,
    serverIn: seq<byte>, serverOut: seq<byte>, server: Socket,
    clientTook: nat, serverTook: nat,
    sent: seq<Sent>, failed: nat, got: seq<Got>)

  /** The write of a call, the read of a call, and a round of the server loop. */
  datatype Action = WriteRequest(r: Request) | ReadReply(timeout: int) | ServerRound

  function Fresh(client: Socket, server: Socket): State {
    State(0, false, Zeros(MAXDATALEN), client, Zeros(MAXDATALEN), Zeros(MAXDATALEN), server,
          |server.sent|, |client.sent|, [], 0, [])
  }

  ghost predicate Sized(s: State) {
    |s.image| == |s.serverIn| == |s.serverOut| == MAXDATALEN
  }

  function Wrote(p: Party, s: State, r: Request): WriteResult {
    Write(0, s.client, RequestFrame(p, ToU32(s.invokeId + 1), r))
  }

  function AfterWrite(p: Party, s: State, r: Request): State {
    var w := Wrote(p, s, r);
    var s1 := s.(invokeId := s.invokeId + 1, client := w.socket);
    if w.rc == 1 then s1.(waiting := true, sent := s.sent + [Sent(s.invokeId + 1, r)]) else s1
  }

  ghost function AfterRead(s: State, timeout: int): (s': State)
    requires Sized(s)
    ensures Sized(s')
  {
    var x := Read(s.client.input, timeout, s.image);
    var s1 := s.(waiting := false, image := x.image, client := s.client.(input := x.input),
                 clientTook := s.clientTook + x.taken);
    if x.rc > 0 then s1.(got := s.got + [Got(s.invokeId, x.rc, x.image)]) else s1.(failed := s.failed + 1)
  }

  ghost function AfterServerRound(s: State): (s': State)
    requires Sized(s)
    ensures Sized(s')
  {
    var x := Read(s.server.input, SERVER_TIMEOUT, s.serverIn);
    var v := s.server.(input := x.input);
    var s1 := s.(serverTook := s.serverTook + x.taken, serverIn := x.image);
    if x.rc > 0 && Answerable(x.image) then
      s1.(server := Write(0, v, ReplyFrame(x.image, s.serverOut)).socket, serverOut := ReplyImage(x.image, s.serverOut))
    else s1.(server := v)
  }

  ghost function Do(p: Party, s: State, a: Action): (s': State)
    requires Sized(s)
    ensures Sized(s')
  {
    match a
    case WriteRequest(r) => AfterWrite(p, s, r)
    case ReadReply(timeout) => AfterRead(s, timeout)
    case ServerRound => AfterServerRound(s)
  }

  /** The transport: the next `n` bytes of the input are the next ones that the other side has sent by now. */
  predicate Carried(input: seq<Event>, n: nat, sent: seq<byte>, took: nat) {
    took <= |sent| && n <= |StreamBytes(input)| && StreamBytes(input)[..n] <= sent[took..]
  }

  /**
    What can be done next, when the transport carries what was sent and neither a
    read nor a write stops inside a packet.
   */
  ghost predicate Allowed(p: Party, s: State, a: Action)
    requires Sized(s)
  {
    match a
    case WriteRequest(r) =>
      !s.waiting && Servable(r) && (Wrote(p, s, r).rc == 1 || Wrote(p, s, r).socket.sent == s.client.sent)
    case ReadReply(timeout) =>
      var x := Read(s.client.input, timeout, s.image);
      s.waiting && CleanRead(x) && Carried(s.client.input, x.taken, s.server.sent, s.clientTook)
    case ServerRound =>
      var x := Read(s.server.input, SERVER_TIMEOUT, s.serverIn);
      && CleanRead(x) && Carried(s.server.input, x.taken, s.client.sent, s.serverTook)
      && (x.rc > 0 && Answerable(x.image) ==>
            Write(0, s.server.(input := x.input), ReplyFrame(x.image, s.serverOut)).rc == 1)
  }

  ghost predicate Leads(p: Party, s: State, a: Action, s': State) {
    Sized(s) && Allowed(p, s, a) && s' == Do(p, s, a)
  }

  /** What the two programs do, from two fresh connections on. */
  ghost predicate Execution(p: Party, client: Socket, server: Socket, states: seq<State>, actions: seq<Action>) {
    && |states| == |actions| + 1 && states[0] == Fresh(client, server)
    && forall i {:trigger actions[i]} :: 0 <= i < |actions| ==> Leads(p, states[i], actions[i], states[i + 1])
  }

  // ---------------------------------------------------------------- the program does these actions

  /** The state has this connection on its client side. */
  twostate predicate WasClient(k: Kernel, dc: ADSConnection, s: State)
    requires old(Usable(k, dc))
    reads {}
  {
    && s.invokeId == old(dc.invokeId) && s.image == old(dc.msgIn[..])
    && s.client == old(k.sockets)[old(dc.iface.sd)]
  }

  ghost predicate IsClient(k: Kernel, dc: ADSConnection, s: State)
    reads k, dc, dc.iface, dc.msgIn
  {
    && s.invokeId == dc.invokeId && s.image == dc.msgIn[..]
    && dc.iface.sd in k.sockets && s.client == k.sockets[dc.iface.sd]
  }

  /** The client side of `late` is that of `s` after its write. */
  predicate HasWritten(p: Party, s: State, r: Request, late: State) {
    late.client == Wrote(p, s, r).socket && late.image == s.image && late.invokeId == s.invokeId + 1
  }

  /** As it is right after the write. */
  lemma JustWritten(p: Party, s: State, r: Request)
    requires Sized(s)
    ensures HasWritten(p, s, r, Do(p, s, WriteRequest(r)))
  {
  }

  /**
    A call on an unflagged connection whose request goes out writes and then reads;
    `late` is any state in between in which only the server has done something.
    Whatever the sockets have in store, the connection ends up as the actions say.
   */
  twostate lemma CallIsActions(k: Kernel, dc: ADSConnection, r: Request, s: State, late: State)
    requires old(Usable(k, dc)) && old(dc.iface.error) == 0 && Transacted(k, dc, r)
    requires Sized(s) && WasClient(k, dc, s) && Traffic(k, dc, r).sent
    requires Sized(late) && HasWritten(PartyOf(dc), s, r, late)
    ensures Wrote(PartyOf(dc), s, r).rc == 1
    ensures IsClient(k, dc, AfterRead(late, old(dc.iface.timeout)))
  {
    var f := RequestFrame(PartyOf(dc), ToU32(s.invokeId + 1), r);
    ReadFinishes(s.client, old(dc.iface.timeout), f, s.image, late);
  }

  /** The read of an exchange, in a state that its write has led to. */
  lemma ReadFinishes(c: Socket, timeout: int, f: seq<byte>, image: seq<byte>, late: State)
    requires |image| == MAXDATALEN && Exchange(0, c, timeout, f, image).sent
    requires Sized(late) && late.image == image && late.client == Write(0, c, f).socket
    ensures Write(0, c, f).rc == 1
    ensures var x, done := Exchange(0, c, timeout, f, image), AfterRead(late, timeout);
      done.client == x.socket && done.image == x.image && done.invokeId == late.invokeId
  {
    ExchangeHalves(c, timeout, f, image);
  }

  /** The two halves of an exchange. */
  lemma ExchangeHalves(c: Socket, timeout: int, f: seq<byte>, image: seq<byte>)
    requires |image| == MAXDATALEN
    ensures var x, w := Exchange(0, c, timeout, f, image), Write(0, c, f);
      && (x.sent <==> w.rc == 1)
      && if x.sent then var q := Read(w.socket.input, timeout, image);
                        x.socket == w.socket.(input := q.input) && x.image == q.image
         else x.socket == w.socket && x.image == image
  {
  }

  /** One whose request does not go out only writes. */
  twostate lemma FailedCallIsAction(k: Kernel, dc: ADSConnection, r: Request, s: State)
    requires old(Usable(k, dc)) && old(dc.iface.error) == 0 && Transacted(k, dc, r)
    requires Sized(s) && WasClient(k, dc, s) && !Traffic(k, dc, r).sent
    ensures Wrote(PartyOf(dc), s, r).rc != 1
    ensures IsClient(k, dc, AfterWrite(PartyOf(dc), s, r))
  {
    ExchangeHalves(s.client, old(dc.iface.timeout), RequestFrame(PartyOf(dc), ToU32(s.invokeId + 1), r), s.image);
  }

  /** A round of the server loop is the action, as long as what it reads is answerable. */
  lemma RoundIsAction(p: Party, s: State)
    requires Sized(s)
    requires var x := Read(s.server.input, SERVER_TIMEOUT, s.serverIn); x.rc > 0 ==> Answerable(x.image)
    ensures var done := Do(p, s, ServerRound);
      AfterRound(s.server, s.serverIn, s.serverOut) == (done.server, done.serverIn, done.serverOut)
  {
  }

  // ---------------------------------------------------------------- every action is a step

  /** The world shows the state: the channels hold what was sent and not yet taken. */
  ghost predicate Matches(s: State, w: World) {
    && Sized(s) && s.invokeId == w.invokeId && s.waiting == w.waiting
    && s.image == w.clientIn && s.serverIn == w.serverIn && s.serverOut == w.serverOut
    && s.serverTook <= |s.client.sent| && w.toServer == s.client.sent[s.serverTook..]
    && s.clientTook <= |s.server.sent| && w.toClient == s.server.sent[s.clientTook..]
    && s.sent == w.sent && s.failed == w.failed
    && |s.got| == |w.received|
    && forall i :: 0 <= i < |s.got| ==> Shows(w.received[i], s.got[i])
  }

  predicate Shows(c: Receipt, g: Got) {
    g == Got(c.id, c.rc, c.image)
  }

  lemma AppendedBehind(s: seq<byte>, f: seq<byte>, took: nat)
    requires took <= |s|
    ensures took <= |s + f| && (s + f)[took..] == s[took..] + f
  {
  }

  /** Taking `n` more bytes off what was sent. */
  lemma TakenOff(sent: seq<byte>, took: nat, n: nat)
    requires took + n <= |sent|
    ensures sent[took..][n..] == sent[took + n..]
  {
  }

  lemma WriteIsStep(p: Party, s: State, w: World, r: Request) returns (step: Step, w': World)
    requires Matches(s, w) && Allowed(p, s, WriteRequest(r))
    ensures StepTo(p, w, step, w') && Matches(AfterWrite(p, s, r), w')
  {
    var f := RequestFrame(p, ToU32(s.invokeId + 1), r);
    if Write(0, s.client, f).rc == 1 {
      step := Call(r);
      w' := WrittenIsCall(s, w, r, f);
    } else {
      step := FailedCall;
      w' := UnwrittenIsFailure(s, w, f);
    }
  }

  lemma WrittenIsCall(s: State, w: World, r: Request, f: seq<byte>) returns (w': World)
    requires Matches(s, w) && Write(0, s.client, f).rc == 1
    ensures w' == AfterCall(w, r, f)
    ensures Matches(s.(invokeId := s.invokeId + 1, client := Write(0, s.client, f).socket, waiting := true,
                       sent := s.sent + [Sent(s.invokeId + 1, r)]), w')
  {
    AppendedBehind(s.client.sent, f, s.serverTook);
    w' := AfterCall(w, r, f);
  }

  lemma UnwrittenIsFailure(s: State, w: World, f: seq<byte>) returns (w': World)
    requires Matches(s, w) && Write(0, s.client, f).rc != 1 && Write(0, s.client, f).socket.sent == s.client.sent
    ensures w' == AfterFailedCall(w)
    ensures Matches(s.(invokeId := s.invokeId + 1, client := Write(0, s.client, f).socket), w')
  {
    w' := AfterFailedCall(w);
  }

  /** The events of a read that the transport carried are bytes of the channel. */
  lemma CarriedRead(input: seq<Event>, timeout: int, image: seq<byte>, sent: seq<byte>, took: nat)
    returns (events: seq<Event>)
    requires |image| == MAXDATALEN && CleanRead(Read(input, timeout, image))
    requires Carried(input, Read(input, timeout, image).taken, sent, took)
    ensures StreamBytes(events) <= sent[took..]
    ensures var r, q := Read(input, timeout, image), Read(events, timeout, image);
      && q.taken == r.taken && took + r.taken <= |sent| && q.image == r.image && CleanRead(q)
      && (q.rc > 0 <==> r.rc > 0) && (r.rc > 0 ==> q.rc == r.rc)
  {
    var r := Read(input, timeout, image);
    ReadPrefix(input, timeout, image);
    ReadTakes(input, timeout, image);
    events := input[..r.taken];
    assert StreamBytes(events) == StreamBytes(input)[..r.taken];
  }

  lemma ReadIsStep(p: Party, s: State, w: World, timeout: int) returns (step: Step, w': World)
    requires Matches(s, w) && Allowed(p, s, ReadReply(timeout))
    ensures StepTo(p, w, step, w') && Matches(AfterRead(s, timeout), w')
  {
    var events := CarriedRead(s.client.input, timeout, s.image, s.server.sent, s.clientTook);
    TakenOff(s.server.sent, s.clientTook, Read(events, timeout, s.image).taken);
    step := ClientPoll(events, timeout);
    w' := Next(p, w, step);
  }

  lemma RoundIsStep(p: Party, s: State, w: World) returns (step: Step, w': World)
    requires Matches(s, w) && Allowed(p, s, ServerRound)
    ensures StepTo(p, w, step, w') && Matches(AfterServerRound(s), w')
  {
    var events := CarriedRead(s.server.input, SERVER_TIMEOUT, s.serverIn, s.client.sent, s.serverTook);
    var x := Read(events, SERVER_TIMEOUT, s.serverIn);
    TakenOff(s.client.sent, s.serverTook, x.taken);
    if x.rc > 0 && Answerable(x.image) {
      AppendedBehind(s.server.sent, ReplyFrame(x.image, s.serverOut), s.clientTook);
    }
    step := ServerPoll(events);
    w' := Next(p, w, step);
  }

  lemma ActionIsStep(p: Party, s: State, w: World, a: Action) returns (step: Step, w': World)
    requires Matches(s, w) && Allowed(p, s, a)
    ensures StepTo(p, w, step, w') && Matches(Do(p, s, a), w')
  {
    match a {
      case WriteRequest(r) => step, w' := WriteIsStep(p, s, w, r);
      case ReadReply(timeout) => step, w' := ReadIsStep(p, s, w, timeout);
      case ServerRound => step, w' := RoundIsStep(p, s, w);
    }
  }

  /** The worlds show the states one by one. */
  ghost predicate AllMatch(states: seq<State>, worlds: seq<World>) {
    && |states| == |worlds|
    && forall i {:trigger Matches(states[i], worlds[i])} :: 0 <= i < |states| ==> Matches(states[i], worlds[i])
  }

  lemma FirstMatches(states: seq<State>, w: World)
    requires states != [] && Matches(states[0], w)
    ensures AllMatch(states[..1], [w])
  {
  }

  lemma MatchesMore(states: seq<State>, worlds: seq<World>, s: State, w: World)
    requires AllMatch(states, worlds) && Matches(s, w)
    ensures AllMatch(states + [s], worlds + [w])
  {
    var ss, ws := states + [s], worlds + [w];
    forall i | 0 <= i < |ss|
      ensures Matches(ss[i], ws[i])
    {
      if i < |states| {
        assert ss[i] == states[i] && ws[i] == worlds[i] && Matches(states[i], worlds[i]);
      }
    }
  }

  /** Everything the two programs do is a run of the model, state by state. */
  lemma {:induction false} ExecutionIsRun(p: Party, client: Socket, server: Socket,
                                          states: seq<State>, actions: seq<Action>, n: nat)
    returns (worlds: seq<World>, steps: seq<Step>)
    requires Execution(p, client, server, states, actions) && n <= |actions|
    ensures |steps| == n && Run(p, worlds, steps) && AllMatch(states[..n + 1], worlds)
    decreases n
  {
    if n == 0 {
      worlds, steps := [Init()], [];
      FirstMatches(states, Init());
    } else {
      worlds, steps := ExecutionIsRun(p, client, server, states, actions, n - 1);
      assert Leads(p, states[n - 1], actions[n - 1], states[n]);
      assert states[..n + 1] == states[..n] + [states[n]];
      worlds, steps := RunExtends(p, states[..n], worlds, steps, states[n - 1], actions[n - 1], states[n]);
    }
  }

  /** One more action gives one more step. */
  lemma RunExtends(p: Party, states: seq<State>, worlds: seq<World>, steps: seq<Step>, s: State, a: Action, s': State)
    returns (worlds': seq<World>, steps': seq<Step>)
    requires Run(p, worlds, steps) && AllMatch(states, worlds) && states != [] && states[|states| - 1] == s
    requires Leads(p, s, a, s')
    ensures Run(p, worlds', steps') && AllMatch(states + [s'], worlds') && |steps'| == |steps| + 1
  {
    var w := worlds[|steps|];
    assert Matches(states[|steps|], w);
    var step, w' := ActionIsStep(p, s, w, a);
    RunGrows(p, worlds, steps, step, w');
    MatchesMore(states, worlds, s', w');
    worlds', steps' := worlds + [w'], steps + [step];
  }

  lemma ExecutionReaches(p: Party, client: Socket, server: Socket, states: seq<State>, actions: seq<Action>, n: nat)
    returns (w: World)
    requires Execution(p, client, server, states, actions) && n <= |actions|
    ensures Reachable(p, w) && Matches(states[n], w)
  {
    var worlds, steps := ExecutionIsRun(p, client, server, states, actions, n);
    w := worlds[n];
    assert states[..n + 1][n] == states[n] && Matches(states[..n + 1][n], w);
    assert Run(p, worlds, steps) && worlds[|steps|] == w;
  }

  // ---------------------------------------------------------------- main results

  /** Every packet that the server reads is a request it can answer, so its rounds are defined. */
  lemma RequestsAreAnswerable(p: Party, client: Socket, server: Socket, states: seq<State>, actions: seq<Action>,
                              n: nat)
    requires Execution(p, client, server, states, actions) && n < |actions| && actions[n] == ServerRound
    ensures Sized(states[n])
    ensures var x := Read(states[n].server.input, SERVER_TIMEOUT, states[n].serverIn); x.rc > 0 ==> Answerable(x.image)
  {
    var w := ExecutionReaches(p, client, server, states, actions, n);
    var s := states[n];
    assert Leads(p, s, actions[n], states[n + 1]);
    if Read(s.server.input, SERVER_TIMEOUT, s.serverIn).rc > 0 {
      var events := CarriedRead(s.server.input, SERVER_TIMEOUT, s.serverIn, s.client.sent, s.serverTook);
      var requests, replies := ReachableStreams(p, w);
      ServerAnswers(p, requests, replies, w, events);
    }
  }

  /**
    Whatever the two programs do: reply number `j` that a call reads answers request
    number `j`, which is `lag` requests older than the call's own; `lag` counts the
    calls that had sent their request and failed to read before, and the reply
    carries the connection's own invokeId exactly when it is 0.
   */
  lemma ExecutionAlignment(p: Party, client: Socket, server: Socket, states: seq<State>, actions: seq<Action>,
                           n: nat, j: nat)
    returns (lag: nat)
    requires Execution(p, client, server, states, actions) && n <= |actions| && j < |states[n].got|
    ensures var s := states[n]; var c := s.got[j];
      && j + lag < |s.sent| && lag <= s.failed && Servable(s.sent[j].request)
      && var g := Reply(p, ToU32(s.sent[j].id), s.sent[j].request);
      && c.rc == |g| && g <= c.image && |c.image| == MAXDATALEN
      && c.id == s.sent[j + lag].id
      && (s.invokeId < 0x8000_0000 ==>
            InvokeIn(c.image) == s.sent[j].id && (InvokeIn(c.image) == c.id <==> lag == 0))
  {
    var w := ExecutionReaches(p, client, server, states, actions, n);
    SameHistory(states[n], w, j);
    lag := ReceiptAnswers(p, w, j);
  }

  lemma SameHistory(s: State, w: World, j: nat)
    requires Matches(s, w) && j < |s.got|
    ensures s.sent == w.sent && s.failed == w.failed && s.invokeId == w.invokeId
    ensures j < |w.received| && Shows(w.received[j], s.got[j])
  {
  }

  lemma ReceiptAnswers(p: Party, w: World, j: nat) returns (lag: nat)
    requires Reachable(p, w) && j < |w.received|
    ensures j + lag < |w.sent| && lag <= w.failed && Servable(w.sent[j].request) && |w.received[j].image| == MAXDATALEN
    ensures var c, g := w.received[j], Reply(p, ToU32(w.sent[j].id), w.sent[j].request);
      c.rc == |g| && g <= c.image && c.id == w.sent[j + lag].id
    ensures w.invokeId < 0x8000_0000 ==>
      var c := w.received[j]; InvokeIn(c.image) == w.sent[j].id && (InvokeIn(c.image) == c.id <==> lag == 0)
  {
    lag := w.received[j].lag;
    ReplyAlignment(p, w, j);
    ReceiptIds(p, w, j);
    if w.invokeId < 0x8000_0000 {
      ReceiptInvokeId(p, w, j);
    }
  }
}
