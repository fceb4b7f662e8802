/** Executions of the client and the server in which every call is answered. */
module Executions {
  import opened Bytes
  import opened AdsH
  import opened Kernel
  import opened AdsIo
  import opened Requests
  import opened AdsServer
  import opened Framing
  import opened EndToEnd
  import opened Runs
  import opened Program

  /** Between two calls, with nothing on the way; these bytes are still to come to the client and to the server. */
  ghost predicate Idle(s: State, toClient: seq<byte>, toServer: seq<byte>) {
    && Sized(s) && !s.waiting && s.client.sends == s.server.sends == []
    && s.client.input == Arriving(toClient) && s.server.input == Arriving(toServer)
    && s.serverTook == |s.client.sent| && s.clientTook == |s.server.sent|
  }

  /** The first packet of bytes that come at once is read. */
  lemma ReadsFirst(f: seq<byte>, more: seq<byte>, timeout: int, image: seq<byte>)
    requires |image| == MAXDATALEN && IsFrame(f) && |f| <= MAXDATALEN && timeout >= 0
    ensures var x := Read(Arriving(f + more), timeout, image);
      x.rc == |f| && x.taken == |f| && f <= x.image && x.input == Arriving(more)
  {
    ArrivesFirst(f, more, timeout);
    SucceedsIff(Arriving(f + more), timeout, image, f);
    ReadFramed(Arriving(f + more), timeout, image, f, more);
    assert Read(Arriving(f + more), timeout, image).image[..|f|] == f;
  }

  lemma ArrivesFirst(f: seq<byte>, more: seq<byte>, timeout: int)
    requires timeout >= 0
    ensures var input := Arriving(f + more);
      && StreamBytes(input) == f + more && Arrives(input, BudgetOf(timeout), |f|) && input[|f|..] == Arriving(more)
  {
    ArrivingComes(f + more, timeout);
    ArrivesPrefix(Arriving(f + more), BudgetOf(timeout), |f|, |f + more|);
  }

  /** What was just sent is carried to the other side. */
  lemma {:induction false} JustSent(input: seq<Event>, f: seq<byte>, more: seq<byte>, sent: seq<byte>)
    requires StreamBytes(input) == f + more
    ensures Carried(input, |f|, sent + f, |sent|)
  {
    assert (sent + f)[|sent|..] == f && (f + more)[..|f|] == f;
  }

  lemma WriteHappens(p: Party, s: State, r: Request, f: seq<byte>) returns (s': State)
    requires Sized(s) && !s.waiting && s.client.sends == []
    requires Servable(r) && f == RequestFrame(p, ToU32(s.invokeId + 1), r)
    ensures Leads(p, s, WriteRequest(r), s')
    ensures s' == s.(invokeId := s.invokeId + 1, waiting := true, sent := s.sent + [Sent(s.invokeId + 1, r)],
                     client := s.client.(sent := s.client.sent + f))
  {
    s' := WriteEnds(p, s, r, f);
    WriteLeads(p, s, r, s');
  }

  lemma WriteEnds(p: Party, s: State, r: Request, f: seq<byte>) returns (s': State)
    requires s.client.sends == [] && f == RequestFrame(p, ToU32(s.invokeId + 1), r)
    ensures Wrote(p, s, r).rc == 1 && s' == AfterWrite(p, s, r)
    ensures s' == s.(invokeId := s.invokeId + 1, waiting := true, sent := s.sent + [Sent(s.invokeId + 1, r)],
                     client := s.client.(sent := s.client.sent + f))
  {
    s' := AfterWrite(p, s, r);
  }

  lemma WriteLeads(p: Party, s: State, r: Request, s': State)
    requires Sized(s) && !s.waiting && Servable(r) && Wrote(p, s, r).rc == 1 && s' == AfterWrite(p, s, r)
    ensures Leads(p, s, WriteRequest(r), s')
  {
  }

  lemma RoundHappens(p: Party, s: State, id: u32, r: Request, f: seq<byte>, g: seq<byte>, sent: seq<byte>,
                     toServer: seq<byte>)
    returns (s': State)
    requires Sized(s) && Servable(r) && f == RequestFrame(p, id, r) && g == Reply(p, id, r) && s.server.sends == []
    requires s.server.input == Arriving(f + toServer) && s.client.sent == sent + f && s.serverTook == |sent|
    ensures Leads(p, s, ServerRound, s') && Sized(s')
    ensures s' == s.(serverIn := s'.serverIn, serverOut := s'.serverOut, serverTook := s.serverTook + |f|,
                     server := Socket(Arriving(toServer), [], s.server.sent + g))
  {
    var x := RequestComes(p, id, r, f, g, toServer, s.serverIn, s.serverOut);
    ArrivingComes(f + toServer, SERVER_TIMEOUT);
    JustSent(s.server.input, f, toServer, sent);
    s' := AfterServerRound(s);
  }

  lemma RequestComes(p: Party, id: u32, r: Request, f: seq<byte>, g: seq<byte>, more: seq<byte>, m: seq<byte>,
                     out: seq<byte>)
    returns (x: ReadResult)
    requires Servable(r) && f == RequestFrame(p, id, r) && g == Reply(p, id, r) && |m| == |out| == MAXDATALEN
    ensures x == Read(Arriving(f + more), SERVER_TIMEOUT, m) && x.rc == x.taken == |f| > 0 && x.input == Arriving(more)
    ensures |x.image| == MAXDATALEN && Answerable(x.image) && ReplyFrame(x.image, out) == g
  {
    FrameEquation(p, id, r);
    BodySize(r);
    ReadsFirst(f, more, SERVER_TIMEOUT, m);
    x := Read(Arriving(f + more), SERVER_TIMEOUT, m);
    ReplyIs(p, id, r, x.image, out);
  }

  lemma ReadHappens(p: Party, s: State, g: seq<byte>, sent: seq<byte>, toClient: seq<byte>) returns (s': State)
    requires Sized(s) && s.waiting && IsFrame(g) && |g| <= MAXDATALEN
    requires s.client.input == Arriving(g + toClient) && s.server.sent == sent + g && s.clientTook == |sent|
    ensures Leads(p, s, ReadReply(0), s') && Sized(s')
    ensures s' == s.(waiting := false, image := s'.image, clientTook := s.clientTook + |g|,
                     client := s.client.(input := Arriving(toClient)), got := s.got + [Got(s.invokeId, |g|, s'.image)])
  {
    ReadsFirst(g, toClient, 0, s.image);
    ArrivingComes(g + toClient, 0);
    JustSent(s.client.input, g, toClient, sent);
    s' := AfterRead(s, 0);
  }

  /** One call, answered at once. */
  lemma CallHappens(p: Party, s: State, r: Request, f: seq<byte>, g: seq<byte>, toClient: seq<byte>,
                    toServer: seq<byte>)
    returns (s1: State, s2: State, s3: State)
    requires Servable(r) && f == RequestFrame(p, ToU32(s.invokeId + 1), r) && g == Reply(p, ToU32(s.invokeId + 1), r)
    requires Idle(s, g + toClient, f + toServer)
    ensures Leads(p, s, WriteRequest(r), s1) && Leads(p, s1, ServerRound, s2) && Leads(p, s2, ReadReply(0), s3)
    ensures Idle(s3, toClient, toServer) && |s3.got| == |s.got| + 1 && s3.invokeId == s.invokeId + 1
    ensures s3.sent == s.sent + [Sent(s.invokeId + 1, r)] && s3.failed == s.failed
  {
    s1 := WriteHappens(p, s, r, f);
    s2 := RoundHappens(p, s1, ToU32(s.invokeId + 1), r, f, g, s.client.sent, toServer);
    ReplyIsFrame(p, ToU32(s.invokeId + 1), r);
    s3 := ReadHappens(p, s2, g, s.server.sent, toClient);
  }

  /** The packets of these requests and of their replies, when the first one has invokeId `id`. */
  function RequestBytes(p: Party, rs: seq<Request>, id: nat): seq<byte> {
    if rs == [] then [] else RequestFrame(p, ToU32(id), rs[0]) + RequestBytes(p, rs[1..], id + 1)
  }

  function ReplyBytes(p: Party, rs: seq<Request>, id: nat): seq<byte>
    requires forall i :: 0 <= i < |rs| ==> Servable(rs[i])
  {
    if rs == [] then [] else Reply(p, ToU32(id), rs[0]) + ReplyBytes(p, rs[1..], id + 1)
  }

  lemma ExecutionGrows(p: Party, client: Socket, server: Socket, states: seq<State>, actions: seq<Action>, a: Action,
                       s': State)
    requires Execution(p, client, server, states, actions) && Leads(p, states[|actions|], a, s')
    ensures Execution(p, client, server, states + [s'], actions + [a])
  {
    var ss, acts := states + [s'], actions + [a];
    forall i | 0 <= i < |acts|
      ensures Leads(p, ss[i], acts[i], ss[i + 1])
    {
      if i < |actions| {
        assert acts[i] == actions[i] && ss[i] == states[i] && ss[i + 1] == states[i + 1];
      }
    }
  }

  /** One more call at the end of an execution. */
  lemma CallExtends(p: Party, client: Socket, server: Socket, states: seq<State>, actions: seq<Action>,
                    s: State, r: Request, f: seq<byte>, g: seq<byte>, toClient: seq<byte>, toServer: seq<byte>)
    returns (states': seq<State>, actions': seq<Action>, s': State)
    requires Execution(p, client, server, states, actions) && s == states[|actions|] && Servable(r)
    requires f == RequestFrame(p, ToU32(s.invokeId + 1), r) && g == Reply(p, ToU32(s.invokeId + 1), r)
    requires Idle(s, g + toClient, f + toServer)
    ensures Execution(p, client, server, states', actions') && s' == states'[|actions'|]
    ensures Idle(s', toClient, toServer) && |s'.got| == |s.got| + 1 && s'.invokeId == s.invokeId + 1
    ensures s'.sent == s.sent + [Sent(s.invokeId + 1, r)] && s'.failed == s.failed
  {
    var s1, s2, s3 := CallHappens(p, s, r, f, g, toClient, toServer);
    states', actions' := OneMore(p, client, server, states, actions, WriteRequest(r), s1);
    states', actions' := OneMore(p, client, server, states', actions', ServerRound, s2);
    states', actions' := OneMore(p, client, server, states', actions', ReadReply(0), s3);
    s' := s3;
  }

  lemma OneMore(p: Party, client: Socket, server: Socket, states: seq<State>, actions: seq<Action>, a: Action,
                s': State)
    returns (states': seq<State>, actions': seq<Action>)
    requires Execution(p, client, server, states, actions) && Leads(p, states[|actions|], a, s')
    ensures Execution(p, client, server, states', actions') && states'[|actions'|] == s'
  {
    ExecutionGrows(p, client, server, states, actions, a, s');
    states', actions' := states + [s'], actions + [a];
  }

  /** These requests with the invokeIds from `id` on. */
  function SentAs(rs: seq<Request>, id: nat): seq<Sent> {
    if rs == [] then [] else [Sent(id, rs[0])] + SentAs(rs[1..], id + 1)
  }

  lemma {:induction false} SentMore(sent: seq<Sent>, rs: seq<Request>, id: nat)
    requires rs != []
    ensures (sent + [Sent(id, rs[0])]) + SentAs(rs[1..], id + 1) == sent + SentAs(rs, id)
  {
  }

  lemma {:induction false} FirstOf(p: Party, rs: seq<Request>, id: nat)
    returns (f: seq<byte>, g: seq<byte>, toServer: seq<byte>, toClient: seq<byte>)
    requires rs != [] && forall i :: 0 <= i < |rs| ==> Servable(rs[i])
    ensures f == RequestFrame(p, ToU32(id), rs[0]) && g == Reply(p, ToU32(id), rs[0])
    ensures forall i :: 0 <= i < |rs[1..]| ==> Servable(rs[1..][i])
    ensures toServer == RequestBytes(p, rs[1..], id + 1) && toClient == ReplyBytes(p, rs[1..], id + 1)
    ensures RequestBytes(p, rs, id) == f + toServer && ReplyBytes(p, rs, id) == g + toClient
  {
    f, g := RequestFrame(p, ToU32(id), rs[0]), Reply(p, ToU32(id), rs[0]);
    toServer, toClient := RequestBytes(p, rs[1..], id + 1), ReplyBytes(p, rs[1..], id + 1);
  }

  lemma {:induction false} CallsExtend(p: Party, client: Socket, server: Socket, states: seq<State>,
                                       actions: seq<Action>, s: State, rs: seq<Request>)
    returns (states': seq<State>, actions': seq<Action>, s': State)
    requires Execution(p, client, server, states, actions) && s == states[|actions|]
    requires forall i :: 0 <= i < |rs| ==> Servable(rs[i])
    requires Idle(s, ReplyBytes(p, rs, s.invokeId + 1), RequestBytes(p, rs, s.invokeId + 1))
    ensures Execution(p, client, server, states', actions') && s' == states'[|actions'|]
    ensures |s'.got| == |s.got| + |rs| && s'.failed == s.failed && s'.sent == s.sent + SentAs(rs, s.invokeId + 1)
    decreases |rs|
  {
    if rs == [] {
      states', actions', s' := states, actions, s;
    } else {
      var f, g, toServer, toClient := FirstOf(p, rs, s.invokeId + 1);
      var s1;
      states', actions', s1 := CallExtends(p, client, server, states, actions, s, rs[0], f, g, toClient, toServer);
      states', actions', s' := CallsExtend(p, client, server, states', actions', s1, rs[1..]);
      SentMore(s.sent, rs, s.invokeId + 1);
    }
  }

  /** For any list of requests there is an execution in which every one of them is sent, answered and read. */
  lemma CallsHappen(p: Party, rs: seq<Request>)
    returns (client: Socket, server: Socket, states: seq<State>, actions: seq<Action>)
    requires forall i :: 0 <= i < |rs| ==> Servable(rs[i])
    ensures Execution(p, client, server, states, actions)
    ensures var s := states[|actions|]; |s.got| == |rs| && s.failed == 0 && s.sent == SentAs(rs, 1)
  {
    client := Socket(Arriving(ReplyBytes(p, rs, 1)), [], []);
    server := Socket(Arriving(RequestBytes(p, rs, 1)), [], []);
    states, actions := [Fresh(client, server)], [];
    var s;
    states, actions, s := CallsExtend(p, client, server, states, actions, states[0], rs);
  }
}
