/**
  Whole runs of one client connection (src/ads.c) against one server process
  (examples/ADSserver.c), joined by two byte streams.  The client never compares
  invokeIds; which reply a call gets follows from the order of reads and writes.
 */
module Runs {
  import opened Bytes
  import opened AdsH
  import opened Kernel
  import opened AdsIo
  import opened Requests
  import opened AdsServer
  import opened Framing
  import opened EndToEnd

  /** A request that went out, and the invokeId in it. */
  datatype Sent = Sent(id: nat, request: Request)

  /**
    A read of a call that succeeded: which of the calls that sent a request it was,
    how many of the earlier ones had failed to read, the invokeId that the
    connection had, and `msgIn`.
   */
  datatype Receipt = Receipt(call: nat, lag: nat, id: nat, rc: int, image: seq<byte>)

  /** `sent`, `served`, `failed` and `received` record what happened so far. */
  datatype World = World(
    invokeId: nat, waiting: bool, clientIn: seq<byte>,
    serverIn: seq<byte>, serverOut: seq<byte>,
    toServer: seq<byte>, toClient: seq<byte>,
    sent: seq<Sent>, served: nat, failed: nat, received: seq<Receipt>)

  /**
    A call writes its request, or ends because nothing of it could be sent; the
    server tries to read a packet and answers it; the waiting client tries to read
    a packet and its call ends.  `input` says which of the bytes in flight arrive
    during the read, and what happens instead.
   */
  datatype Step =
    | Call(r: Request)
    | FailedCall
    | ServerPoll(input: seq<Event>)
    | ClientPoll(input: seq<Event>, timeout: int)

  function Init(): World {
    World(0, false, Zeros(MAXDATALEN), Zeros(MAXDATALEN), Zeros(MAXDATALEN), [], [], [], 0, 0, [])
  }

  ghost predicate Buffers(w: World) {
    |w.clientIn| == |w.serverIn| == |w.serverOut| == MAXDATALEN
  }

  ghost predicate Enabled(w: World, step: Step) {
    match step
    case Call(r) => !w.waiting && Servable(r)
    case FailedCall => !w.waiting
    case ServerPoll(input) => StreamBytes(input) <= w.toServer
    case ClientPoll(input, _) => w.waiting && StreamBytes(input) <= w.toClient
  }

  /** A poll succeeds or takes no byte. */
  ghost predicate Clean(w: World, step: Step)
    requires Buffers(w)
  {
    match step
    case Call(_) => true
    case FailedCall => true
    case ServerPoll(input) => CleanRead(Read(input, SERVER_TIMEOUT, w.serverIn))
    case ClientPoll(input, timeout) => CleanRead(Read(input, timeout, w.clientIn))
  }

  predicate CleanRead(r: ReadResult) { r.rc > 0 || r.taken == 0 }

  /** The request went out as the packet `f`. */
  function AfterCall(w: World, r: Request, f: seq<byte>): World {
    w.(invokeId := w.invokeId + 1, waiting := true, sent := w.sent + [Sent(w.invokeId + 1, r)],
       toServer := w.toServer + f)
  }

  /** The call used up an invokeId and nothing else. */
  function AfterFailedCall(w: World): World {
    w.(invokeId := w.invokeId + 1)
  }

  ghost function AfterServer(w: World, input: seq<Event>): (w': World)
    requires Buffers(w) && StreamBytes(input) <= w.toServer
    ensures Buffers(w')
  {
    var r := Read(input, SERVER_TIMEOUT, w.serverIn);
    ReadTakes(input, SERVER_TIMEOUT, w.serverIn);
    if r.rc > 0 && Answerable(r.image) then
      w.(toServer := w.toServer[r.taken..], toClient := w.toClient + ReplyFrame(r.image, w.serverOut),
         served := w.served + 1, serverIn := r.image, serverOut := ReplyImage(r.image, w.serverOut))
    else w.(toServer := w.toServer[r.taken..], serverIn := r.image)
  }

  ghost function AfterClient(w: World, input: seq<Event>, timeout: int): (w': World)
    requires Buffers(w) && StreamBytes(input) <= w.toClient
    ensures Buffers(w')
  {
    var r := Read(input, timeout, w.clientIn);
    ReadTakes(input, timeout, w.clientIn);
    var w1 := w.(toClient := w.toClient[r.taken..], clientIn := r.image, waiting := false);
    if r.rc > 0 then
      var call := if w.sent == [] then 0 else |w.sent| - 1;
      w1.(received := w.received + [Receipt(call, w.failed, w.invokeId, r.rc, r.image)])
    else w1.(failed := w.failed + 1)
  }

  ghost function Next(p: Party, w: World, step: Step): (w': World)
    requires Buffers(w) && Enabled(w, step)
    ensures Buffers(w')
  {
    match step
    case Call(r) => AfterCall(w, r, RequestFrame(p, ToU32(w.invokeId + 1), r))
    case FailedCall => AfterFailedCall(w)
    case ServerPoll(input) => AfterServer(w, input)
    case ClientPoll(input, timeout) => AfterClient(w, input, timeout)
  }

  /** A step that is enabled and clean leads from `w` to `w'`. */
  ghost predicate StepTo(p: Party, w: World, step: Step, w': World) {
    Buffers(w) && Enabled(w, step) && Clean(w, step) && w' == Next(p, w, step)
  }

  /** A run: the worlds it goes through, from the initial one, and the steps between them. */
  ghost predicate Run(p: Party, worlds: seq<World>, steps: seq<Step>) {
    && |worlds| == |steps| + 1 && worlds[0] == Init()
    && forall i {:trigger steps[i]} :: 0 <= i < |steps| ==> StepTo(p, worlds[i], steps[i], worlds[i + 1])
  }

  /** What a run can lead to. */
  ghost predicate Reachable(p: Party, w: World) {
    exists worlds, steps :: Run(p, worlds, steps) && worlds[|steps|] == w
  }

  /** The initial world is reachable. */
  lemma InitIsReachable(p: Party)
    ensures Reachable(p, Init())
  {
    var none: seq<Step> := [];
    var worlds := [Init()];
    assert Run(p, worlds, none) && worlds[|none|] == Init();
  }

  /** Every world that a step leads to from a reachable one is reachable. */
  lemma ReachableIsClosed(p: Party, w: World, step: Step, w': World)
    requires Reachable(p, w) && StepTo(p, w, step, w')
    ensures Reachable(p, w')
  {
    var worlds, steps :| Run(p, worlds, steps) && worlds[|steps|] == w;
    RunGrows(p, worlds, steps, step, w');
    assert (worlds + [w'])[|steps + [step]|] == w';
  }

  lemma RunGrows(p: Party, worlds: seq<World>, steps: seq<Step>, step: Step, w': World)
    requires Run(p, worlds, steps) && StepTo(p, worlds[|steps|], step, w')
    ensures Run(p, worlds + [w'], steps + [step])
  {
    var ws, ss := worlds + [w'], steps + [step];
    assert ws[|steps|] == worlds[|steps|] && ws[|steps| + 1] == w' && ss[|steps|] == step;
    forall i | 0 <= i < |ss|
      ensures StepTo(p, ws[i], ss[i], ws[i + 1])
    {
      if i < |steps| {
        assert ss[i] == steps[i] && ws[i] == worlds[i] && ws[i + 1] == worlds[i + 1];
      }
    }
  }
}
