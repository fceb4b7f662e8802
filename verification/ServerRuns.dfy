/** What the server loop of examples/ADSserver.c does with the requests of one client. */
module ServerRuns {
  import opened Bytes
  import opened AdsH
  import opened Kernel
  import opened AdsIo
  import opened Requests
  import opened Framing
  import opened AdsServer
  import opened Runs
  import opened Alignment

  /** No failed read of the server's run takes a byte. */
  ghost predicate CleanRun(s: Socket, m: seq<byte>, out: seq<byte>, waitCount: nat)
    requires |m| == MAXDATALEN == |out|
    decreases |s.input|, MAX_WAITS - waitCount
  {
    waitCount < MAX_WAITS ==>
      var r := Read(s.input, SERVER_TIMEOUT, m);
      ReadShrinks(s.input, SERVER_TIMEOUT, m);
      && CleanRead(r)
      && if r.rc > 0 then
           Answerable(r.image) ==>
             CleanRun(Write(0, s.(input := r.input), ReplyFrame(r.image, out)).socket,
                      r.image, ReplyImage(r.image, out), 0)
         else CleanRun(s.(input := r.input), r.image, out, waitCount + 1)
  }

  /** The packets handed to `ranalyze` are the requests from number `from` on. */
  ghost predicate HandledFrom(handled: seq<seq<byte>>, requests: seq<seq<byte>>, from: nat) {
    from + |handled| <= |requests|
    && forall i :: 0 <= i < |handled| ==>
           |handled[i]| == MAXDATALEN && Answerable(handled[i]) && requests[from + i] <= handled[i]
  }

  /** They were answered with their replies, in order, behind what had been sent before. */
  ghost predicate Answered(handled: seq<seq<byte>>, now: seq<byte>, requests: seq<seq<byte>>, replies: seq<seq<byte>>,
                           from: nat, before: seq<byte>)
    requires |requests| == |replies|
  {
    HandledFrom(handled, requests, from) && now == before + Concat(replies[from..from + |handled|])
  }

  /** One read of the server at a packet boundary. */
  lemma {:induction false} ServerReadsNext(requests: seq<seq<byte>>, from: nat, input: seq<Event>, m: seq<byte>)
    requires |m| == MAXDATALEN && from <= |requests| && SmallFrames(requests)
    requires StreamBytes(input) == Concat(requests[from..])
    ensures var r := Read(input, SERVER_TIMEOUT, m);
      && (r.rc > 0 ==>
            from < |requests| && requests[from] <= r.image && StreamBytes(r.input) == Concat(requests[from + 1..]))
      && (r.rc <= 0 && r.taken == 0 ==> StreamBytes(r.input) == StreamBytes(input))
  {
    var fs := requests[from..];
    assert fs != [] ==> fs[0] == requests[from] && fs[1..] == requests[from + 1..];
    ReadFirst(input, SERVER_TIMEOUT, m, fs);
    ReadTakes(input, SERVER_TIMEOUT, m);
  }

  /** One round of the loop, as the first entry of the run and what is left of it. */
  lemma RunUnfolds(s: Socket, m: seq<byte>, out: seq<byte>, waitCount: nat)
    returns (r: ReadResult, s': Socket, out': seq<byte>)
    requires |m| == MAXDATALEN == |out| && waitCount < MAX_WAITS && s.sends == []
    requires CleanRun(s, m, out, waitCount)
    ensures r == Read(s.input, SERVER_TIMEOUT, m) && |r.image| == MAXDATALEN && CleanRead(r)
    ensures r.rc > 0 && Answerable(r.image) ==>
      && |out'| == MAXDATALEN && |s'.input| < |s.input| && CleanRun(s', r.image, out', 0)
      && s'.input == r.input && s'.sends == [] && s'.sent == s.sent + ReplyFrame(r.image, out)
      && var run, rest := Serve(s, m, out, waitCount), Serve(s', r.image, out', 0);
      run.handled == [r.image] + rest.handled && run.socket == rest.socket
    ensures r.rc <= 0 ==>
      && |out'| == MAXDATALEN && |s'.input| <= |s.input| && CleanRun(s', r.image, out', waitCount + 1)
      && s'.input == r.input && s'.sends == [] && s'.sent == s.sent
      && var run, rest := Serve(s, m, out, waitCount), Serve(s', r.image, out', waitCount + 1);
      run.handled == rest.handled && run.socket == rest.socket
  {
    r := Read(s.input, SERVER_TIMEOUT, m);
    ReadShrinks(s.input, SERVER_TIMEOUT, m);
    if r.rc > 0 && Answerable(r.image) {
      s', out' := Write(0, s.(input := r.input), ReplyFrame(r.image, out)).socket, ReplyImage(r.image, out);
    } else {
      s', out' := s.(input := r.input), out;
    }
  }

  /**
    When the input is a list of servable requests and no failed read takes a
    byte, every packet handled is answerable, the packets handled are the
    requests in order, and what is sent is the list of their replies.
   */
  lemma {:induction false} ServesInOrder(p: Party, sent: seq<Sent>, requests: seq<seq<byte>>, replies: seq<seq<byte>>,
                                         from: nat, s: Socket, m: seq<byte>, out: seq<byte>, waitCount: nat)
    requires |m| == MAXDATALEN == |out| && Named(p, sent, requests, replies) && from <= |sent|
    requires s.sends == [] && StreamBytes(s.input) == Concat(requests[from..])
    requires CleanRun(s, m, out, waitCount)
    ensures var run := Serve(s, m, out, waitCount);
      Answered(run.handled, run.socket.sent, requests, replies, from, s.sent)
    decreases |s.input|, MAX_WAITS - waitCount
  {
    if waitCount >= MAX_WAITS {
      NothingHandled(requests, replies, from, s.sent);
    } else {
      var r, s', out' := RunUnfolds(s, m, out, waitCount);
      NamedAreSmall(p, sent, requests, replies);
      ServerReadsNext(requests, from, s.input, m);
      if r.rc > 0 {
        NamedReply(p, sent, requests, replies, from, r.image, out);
        ServesInOrder(p, sent, requests, replies, from + 1, s', r.image, out', 0);
        var rest := Serve(s', r.image, out', 0);
        HandledMore(requests, replies, from, s.sent, r.image, rest.handled, rest.socket.sent);
      } else {
        ServesInOrder(p, sent, requests, replies, from, s', r.image, out', waitCount + 1);
      }
    }
  }

  lemma NothingHandled(requests: seq<seq<byte>>, replies: seq<seq<byte>>, from: nat, sent: seq<byte>)
    requires from <= |replies| == |requests|
    ensures Answered([], sent, requests, replies, from, sent)
  {
  }

  lemma HandledMore(requests: seq<seq<byte>>, replies: seq<seq<byte>>, from: nat, before: seq<byte>,
                    m: seq<byte>, handled: seq<seq<byte>>, now: seq<byte>)
    requires from < |requests| == |replies|
    requires |m| == MAXDATALEN && Answerable(m) && requests[from] <= m
    requires Answered(handled, now, requests, replies, from + 1, before + replies[from])
    ensures Answered([m] + handled, now, requests, replies, from, before)
  {
  }

  /** Once the stream is used up the loop only counts failures. */
  lemma {:induction false} ExhaustedIsClean(s: Socket, m: seq<byte>, out: seq<byte>, waitCount: nat)
    requires |m| == MAXDATALEN == |out| && StreamBytes(s.input) == []
    ensures CleanRun(s, m, out, waitCount) && Serve(s, m, out, waitCount).handled == []
    decreases |s.input|, MAX_WAITS - waitCount
  {
    if waitCount < MAX_WAITS {
      var r := Read(s.input, SERVER_TIMEOUT, m);
      ReadTakes(s.input, SERVER_TIMEOUT, m);
      ReadShrinks(s.input, SERVER_TIMEOUT, m);
      ExhaustedIsClean(s.(input := r.input), r.image, out, waitCount + 1);
    }
  }

  /** One round when the next request comes in time. */
  lemma {:induction false} InTimeRound(requests: seq<seq<byte>>, from: nat, input: seq<Event>, m: seq<byte>)
    requires |m| == MAXDATALEN && from < |requests| && SmallFrames(requests)
    requires StreamBytes(input) == Concat(requests[from..]) && InTime(requests[from..], input, SERVER_TIMEOUT)
    ensures var r := Read(input, SERVER_TIMEOUT, m);
      && r.rc > 0 && requests[from] <= r.image && |r.input| < |input|
      && StreamBytes(r.input) == Concat(requests[from + 1..]) && InTime(requests[from + 1..], r.input, SERVER_TIMEOUT)
  {
    var fs := requests[from..];
    assert fs[0] == requests[from] && fs[1..] == requests[from + 1..];
    ServerReadsNext(requests, from, input, m);
    SucceedsIff(input, SERVER_TIMEOUT, m, requests[from]);
    ReadShrinks(input, SERVER_TIMEOUT, m);
  }

  /** Servable requests that all come in time are all handled. */
  lemma {:induction false} AllServed(p: Party, sent: seq<Sent>, requests: seq<seq<byte>>, replies: seq<seq<byte>>,
                                     from: nat, s: Socket, m: seq<byte>, out: seq<byte>)
    requires |m| == MAXDATALEN == |out| && Named(p, sent, requests, replies) && from <= |sent| && s.sends == []
    requires StreamBytes(s.input) == Concat(requests[from..]) && InTime(requests[from..], s.input, SERVER_TIMEOUT)
    ensures CleanRun(s, m, out, 0) && |Serve(s, m, out, 0).handled| == |requests| - from
    decreases |s.input|
  {
    if from == |requests| {
      assert requests[from..] == [];
      ExhaustedIsClean(s, m, out, 0);
    } else {
      var r := Read(s.input, SERVER_TIMEOUT, m);
      NamedAreSmall(p, sent, requests, replies);
      InTimeRound(requests, from, s.input, m);
      NamedReply(p, sent, requests, replies, from, r.image, out);
      var s' := Write(0, s.(input := r.input), ReplyFrame(r.image, out)).socket;
      AllServed(p, sent, requests, replies, from + 1, s', r.image, ReplyImage(r.image, out));
    }
  }

  /**
    `portServer` may be called on a socket that carries servable requests which
    come in time, and then it answers every one of them, in order.
   */
  lemma {:induction false} PortServerAnswersAll(p: Party, sent: seq<Sent>, requests: seq<seq<byte>>,
                                                replies: seq<seq<byte>>, s: Socket)
    requires Named(p, sent, requests, replies) && s.sends == []
    requires StreamBytes(s.input) == Concat(requests) && InTime(requests, s.input, SERVER_TIMEOUT)
    ensures var run := Serve(s, Zeros(MAXDATALEN), Zeros(MAXDATALEN), 0);
      && AllAnswerable(run.handled) && |run.handled| == |sent|
      && run.socket.sent == s.sent + Concat(replies)
      && forall i :: 0 <= i < |sent| ==> requests[i] <= run.handled[i]
  {
    assert requests[0..] == requests;
    AllServed(p, sent, requests, replies, 0, s, Zeros(MAXDATALEN), Zeros(MAXDATALEN));
    ServesInOrder(p, sent, requests, replies, 0, s, Zeros(MAXDATALEN), Zeros(MAXDATALEN), 0);
    assert replies[0..|sent|] == replies;
    var handled := Serve(s, Zeros(MAXDATALEN), Zeros(MAXDATALEN), 0).handled;
    assert forall i :: 0 <= i < |sent| ==> requests[0 + i] <= handled[i];
  }
}
