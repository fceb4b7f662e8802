/**
  Which reply a call gets, over whole runs of a client (src/ads.c) and a server
  (examples/ADSserver.c).
 */
module Alignment {
  import opened Bytes
  import opened AdsH
  import opened Kernel
  import opened AdsIo
  import opened Requests
  import opened Ads
  import opened AdsServer
  import opened Framing
  import opened EndToEnd
  import opened Runs

  // ---------------------------------------------------------------- invariant

  /** A request that was sent and its reply, as packets. */
  predicate Pair(p: Party, c: Sent, f: seq<byte>, g: seq<byte>) {
    Servable(c.request) && f == RequestFrame(p, ToU32(c.id), c.request) && g == Reply(p, ToU32(c.id), c.request)
  }

  ghost predicate Named(p: Party, sent: seq<Sent>, requests: seq<seq<byte>>, replies: seq<seq<byte>>) {
    && |requests| == |replies| == |sent|
    && forall i {:trigger Pair(p, sent[i], requests[i], replies[i])} :: 0 <= i < |sent| ==>
         Pair(p, sent[i], requests[i], replies[i])
  }

  /** Packets that fit the buffers. */
  predicate SmallFrames(fs: seq<seq<byte>>) {
    forall i :: 0 <= i < |fs| ==> IsFrame(fs[i]) && |fs[i]| <= MAXDATALEN
  }

  lemma NamedAreSmall(p: Party, sent: seq<Sent>, requests: seq<seq<byte>>, replies: seq<seq<byte>>)
    requires Named(p, sent, requests, replies)
    ensures SmallFrames(requests) && SmallFrames(replies)
  {
    forall i | 0 <= i < |sent|
      ensures IsFrame(requests[i]) && |requests[i]| <= MAXDATALEN && IsFrame(replies[i]) && |replies[i]| <= MAXDATALEN
    {
      assert Pair(p, sent[i], requests[i], replies[i]);
      PairIsSmall(p, sent[i], requests[i], replies[i]);
    }
  }

  lemma NamedReply(p: Party, sent: seq<Sent>, requests: seq<seq<byte>>, replies: seq<seq<byte>>,
                   i: nat, m: seq<byte>, out: seq<byte>)
    requires Named(p, sent, requests, replies) && i < |sent| && |m| == MAXDATALEN == |out| && requests[i] <= m
    ensures Answerable(m) && ReplyFrame(m, out) == replies[i]
  {
    assert Pair(p, sent[i], requests[i], replies[i]);
    ReplyIs(p, ToU32(sent[i].id), sent[i].request, m, out);
  }

  lemma PairIsSmall(p: Party, c: Sent, f: seq<byte>, g: seq<byte>)
    requires Pair(p, c, f, g)
    ensures IsFrame(f) && |f| <= MAXDATALEN && IsFrame(g) && |g| <= MAXDATALEN
  {
    FrameEquation(p, ToU32(c.id), c.request);
    BodySize(c.request);
    ReplyIsFrame(p, ToU32(c.id), c.request);
  }

  /** This receipt holds the reply to request number `j`, in a call that came `lag` later. */
  predicate ReceiptOk(replies: seq<seq<byte>>, c: Receipt, failed: nat, j: nat)
    requires j < |replies|
  {
    && |c.image| == MAXDATALEN
    && c.rc == |replies[j]| && replies[j] <= c.image
    && c.call == j + c.lag && c.call < |replies| && c.lag <= failed
  }

  /** The receipts are in order and their lags never shrink. */
  predicate ReceiptsOk(replies: seq<seq<byte>>, received: seq<Receipt>, failed: nat) {
    received == []
    || (var j := |received| - 1;
        && j < |replies|
        && ReceiptOk(replies, received[j], failed, j)
        && (j > 0 ==> received[j - 1].lag <= received[j].lag)
        && ReceiptsOk(replies, received[..j], failed))
  }

  lemma {:induction false} ReceiptsGrow(replies: seq<seq<byte>>, received: seq<Receipt>, failed: nat, g: seq<byte>,
                                        failed': nat)
    requires ReceiptsOk(replies, received, failed) && failed <= failed'
    ensures ReceiptsOk(replies, received, failed') && ReceiptsOk(replies + [g], received, failed')
  {
    if received != [] {
      ReceiptsGrow(replies, received[..|received| - 1], failed, g, failed');
    }
  }

  lemma {:induction false} ReceiptsAt(replies: seq<seq<byte>>, received: seq<Receipt>, failed: nat, i: nat, j: nat)
    requires ReceiptsOk(replies, received, failed) && i <= j < |received|
    ensures j < |replies| && ReceiptOk(replies, received[i], failed, i) && ReceiptOk(replies, received[j], failed, j)
    ensures received[i].lag <= received[j].lag
  {
    var k := |received| - 1;
    if j < k {
      ReceiptsAt(replies, received[..k], failed, i, j);
    } else if i < k {
      ReceiptsAt(replies, received[..k], failed, i, k - 1);
    }
  }

  /**
    The requests not yet served are what is on the way to the server, the replies
    not yet received are what is on the way back, and the receipts are in order.
   */
  ghost predicate Streams(requests: seq<seq<byte>>, replies: seq<seq<byte>>, w: World) {
    && |requests| == |replies| == |w.sent|
    && |w.received| <= w.served <= |requests|
    && |requests| == |w.received| + w.failed + (if w.waiting then 1 else 0)
    && w.toServer == Concat(requests[w.served..])
    && w.toClient == Concat(replies[|w.received|..w.served])
    && ReceiptsOk(replies, w.received, w.failed)
  }

  // ---------------------------------------------------------------- every step keeps the invariant

  lemma StreamAppend(fs: seq<seq<byte>>, f: seq<byte>, from: nat, to: nat)
    requires from <= to <= |fs|
    ensures Concat((fs + [f])[from..]) == Concat(fs[from..]) + f
    ensures (fs + [f])[from..to] == fs[from..to]
  {
    assert (fs + [f])[from..] == fs[from..] + [f];
    ConcatAppend(fs[from..], [f]);
    assert Concat([f]) == f + Concat([]) == f;
  }

  /** The first packet of a stream, and one more packet at its end. */
  lemma StreamParts(fs: seq<seq<byte>>, from: nat, to: nat)
    requires from <= to <= |fs|
    ensures from < to ==> Concat(fs[from..to]) == fs[from] + Concat(fs[from + 1..to])
    ensures to < |fs| ==> Concat(fs[from..to + 1]) == Concat(fs[from..to]) + fs[to]
  {
    if from < to {
      assert fs[from..to][1..] == fs[from + 1..to];
    }
    if to < |fs| {
      assert fs[from..to + 1] == fs[from..to] + [fs[to]];
      ConcatAppend(fs[from..to], [fs[to]]);
      assert Concat([fs[to]]) == fs[to] + Concat([]) == fs[to];
    }
  }

  lemma CallKeepsStreams(requests: seq<seq<byte>>, replies: seq<seq<byte>>, w: World, r: Request, f: seq<byte>,
                         g: seq<byte>)
    requires Streams(requests, replies, w) && !w.waiting
    ensures Streams(requests + [f], replies + [g], AfterCall(w, r, f))
  {
    StreamAppend(requests, f, w.served, w.served);
    StreamAppend(replies, g, |w.received|, w.served);
    ReceiptsGrow(replies, w.received, w.failed, g, w.failed);
  }

  lemma DropNothing(s: seq<byte>, n: nat)
    requires n == 0
    ensures s[n..] == s
  {
  }

  /** A successful read of a stream of packets takes the first one. */
  lemma {:induction false} ReadFirst(input: seq<Event>, timeout: int, image: seq<byte>, fs: seq<seq<byte>>)
    requires |image| == MAXDATALEN && StreamBytes(input) <= Concat(fs)
    requires fs != [] ==> IsFrame(fs[0]) && |fs[0]| <= MAXDATALEN
    ensures var r := Read(input, timeout, image);
      r.rc > 0 ==>
        fs != [] && r.rc == |fs[0]| && fs[0] <= r.image && r.taken <= |Concat(fs)|
          && Concat(fs)[r.taken..] == Concat(fs[1..])
  {
    var r := Read(input, timeout, image);
    if fs == [] {
      ReadTakes(input, timeout, image);
    } else {
      ReadFramed(input, timeout, image, fs[0], Concat(fs[1..]));
      if r.rc > 0 {
        assert r.image[..|fs[0]|] == fs[0];
      }
    }
  }

  /** The server's read takes the next request, if it takes one. */
  lemma {:induction false} ServerReads(requests: seq<seq<byte>>, w: World, input: seq<Event>)
    requires Buffers(w) && SmallFrames(requests) && w.served <= |requests|
    requires w.toServer == Concat(requests[w.served..]) && StreamBytes(input) <= w.toServer
    ensures var r := Read(input, SERVER_TIMEOUT, w.serverIn);
      r.rc > 0 ==>
        && w.served < |requests| && requests[w.served] <= r.image
        && r.taken <= |w.toServer| && w.toServer[r.taken..] == Concat(requests[w.served + 1..])
  {
    var fs := requests[w.served..];
    assert fs != [] ==> fs[0] == requests[w.served] && fs[1..] == requests[w.served + 1..];
    ReadFirst(input, SERVER_TIMEOUT, w.serverIn, fs);
  }

  lemma ServedKeepsStreams(requests: seq<seq<byte>>, replies: seq<seq<byte>>, w: World,
                           left: seq<byte>, m: seq<byte>, out: seq<byte>)
    requires Streams(requests, replies, w) && w.served < |requests| && left == Concat(requests[w.served + 1..])
    ensures Streams(requests, replies,
      w.(toServer := left, toClient := w.toClient + replies[w.served], served := w.served + 1,
         serverIn := m, serverOut := out))
  {
    StreamParts(replies, |w.received|, w.served);
  }

  lemma {:induction false} ServerKeepsStreams(p: Party, requests: seq<seq<byte>>, replies: seq<seq<byte>>, w: World,
                                              input: seq<Event>)
    requires Buffers(w) && Streams(requests, replies, w) && Named(p, w.sent, requests, replies)
    requires StreamBytes(input) <= w.toServer && CleanRead(Read(input, SERVER_TIMEOUT, w.serverIn))
    ensures Streams(requests, replies, AfterServer(w, input))
  {
    if Read(input, SERVER_TIMEOUT, w.serverIn).rc > 0 {
      ServingKeepsStreams(p, requests, replies, w, input);
    } else {
      DropNothing(w.toServer, Read(input, SERVER_TIMEOUT, w.serverIn).taken);
    }
  }

  lemma {:induction false} ServingKeepsStreams(p: Party, requests: seq<seq<byte>>, replies: seq<seq<byte>>, w: World,
                                               input: seq<Event>)
    requires Buffers(w) && Streams(requests, replies, w) && Named(p, w.sent, requests, replies)
    requires StreamBytes(input) <= w.toServer && Read(input, SERVER_TIMEOUT, w.serverIn).rc > 0
    ensures Streams(requests, replies, AfterServer(w, input))
  {
    var left, m, out := ServerTakes(p, requests, replies, w, input);
    ServedKeepsStreams(requests, replies, w, left, m, out);
  }

  lemma ServerTakes(p: Party, requests: seq<seq<byte>>, replies: seq<seq<byte>>, w: World, input: seq<Event>)
    returns (left: seq<byte>, m: seq<byte>, out: seq<byte>)
    requires Buffers(w) && Streams(requests, replies, w) && Named(p, w.sent, requests, replies)
    requires StreamBytes(input) <= w.toServer && Read(input, SERVER_TIMEOUT, w.serverIn).rc > 0
    ensures w.served < |requests| && left == Concat(requests[w.served + 1..])
    ensures AfterServer(w, input)
         == w.(toServer := left, toClient := w.toClient + replies[w.served], served := w.served + 1,
               serverIn := m, serverOut := out)
  {
    ServerAnswers(p, requests, replies, w, input);
    var w' := AfterServer(w, input);
    left, m, out := w'.toServer, w'.serverIn, w'.serverOut;
  }

  /** What the server reads is the next request, and what it sends is the reply to it. */
  lemma {:induction false} ServerAnswers(p: Party, requests: seq<seq<byte>>, replies: seq<seq<byte>>, w: World,
                                         input: seq<Event>)
    requires Buffers(w) && Streams(requests, replies, w) && Named(p, w.sent, requests, replies)
    requires StreamBytes(input) <= w.toServer && Read(input, SERVER_TIMEOUT, w.serverIn).rc > 0
    ensures var r := Read(input, SERVER_TIMEOUT, w.serverIn);
      && w.served < |requests| && Answerable(r.image) && ReplyFrame(r.image, w.serverOut) == replies[w.served]
      && r.taken <= |w.toServer| && w.toServer[r.taken..] == Concat(requests[w.served + 1..])
  {
    NamedAreSmall(p, w.sent, requests, replies);
    ServerReads(requests, w, input);
    NamedReply(p, w.sent, requests, replies, w.served, Read(input, SERVER_TIMEOUT, w.serverIn).image, w.serverOut);
  }

  /** The client's read takes the next reply, if it takes one. */
  lemma {:induction false} ClientReads(replies: seq<seq<byte>>, w: World, input: seq<Event>, timeout: int)
    requires Buffers(w) && SmallFrames(replies) && |w.received| <= w.served <= |replies|
    requires w.toClient == Concat(replies[|w.received|..w.served]) && StreamBytes(input) <= w.toClient
    ensures var r := Read(input, timeout, w.clientIn); var i := |w.received|;
      r.rc > 0 ==>
        && i < w.served && replies[i] <= r.image && r.rc == |replies[i]|
        && r.taken <= |w.toClient| && w.toClient[r.taken..] == Concat(replies[i + 1..w.served])
  {
    var i := |w.received|;
    var fs := replies[i..w.served];
    assert fs != [] ==> fs[0] == replies[i] && fs[1..] == replies[i + 1..w.served];
    ReadFirst(input, timeout, w.clientIn, fs);
  }

  lemma ReceivedKeepsStreams(requests: seq<seq<byte>>, replies: seq<seq<byte>>, w: World, left: seq<byte>, rc: int,
                             m: seq<byte>)
    requires Streams(requests, replies, w) && w.waiting && |w.received| < w.served
    requires left == Concat(replies[|w.received| + 1..w.served])
    requires |m| == MAXDATALEN && replies[|w.received|] <= m && rc == |replies[|w.received|]|
    ensures Streams(requests, replies,
      w.(toClient := left, clientIn := m, waiting := false,
         received := w.received + [Receipt(|w.sent| - 1, w.failed, w.invokeId, rc, m)]))
  {
  }

  lemma FailedKeepsStreams(requests: seq<seq<byte>>, replies: seq<seq<byte>>, w: World, m: seq<byte>)
    requires Streams(requests, replies, w) && w.waiting
    ensures Streams(requests, replies, w.(clientIn := m, waiting := false, failed := w.failed + 1))
  {
    ReceiptsGrow(replies, w.received, w.failed, [], w.failed + 1);
  }

  lemma {:induction false} ClientKeepsStreams(requests: seq<seq<byte>>, replies: seq<seq<byte>>, w: World,
                                              input: seq<Event>, timeout: int)
    requires Buffers(w) && Streams(requests, replies, w) && SmallFrames(replies) && w.waiting
    requires StreamBytes(input) <= w.toClient && CleanRead(Read(input, timeout, w.clientIn))
    ensures Streams(requests, replies, AfterClient(w, input, timeout))
  {
    var r := Read(input, timeout, w.clientIn);
    ClientReads(replies, w, input, timeout);
    if r.rc > 0 {
      ReceivedKeepsStreams(requests, replies, w, w.toClient[r.taken..], r.rc, r.image);
    } else {
      DropNothing(w.toClient, r.taken);
      FailedKeepsStreams(requests, replies, w, r.image);
    }
  }

  /** One more request adds one packet to either list. */
  lemma NamedGrows(p: Party, sent: seq<Sent>, requests: seq<seq<byte>>, replies: seq<seq<byte>>, c: Sent)
    returns (f: seq<byte>, g: seq<byte>)
    requires Named(p, sent, requests, replies) && Servable(c.request)
    ensures f == RequestFrame(p, ToU32(c.id), c.request) && Named(p, sent + [c], requests + [f], replies + [g])
  {
    f, g := RequestFrame(p, ToU32(c.id), c.request), Reply(p, ToU32(c.id), c.request);
    forall i | 0 <= i < |sent| + 1
      ensures Pair(p, (sent + [c])[i], (requests + [f])[i], (replies + [g])[i])
    {
      if i < |sent| {
        assert Pair(p, sent[i], requests[i], replies[i]);
      }
    }
  }

  /** Every step keeps the invariant, for the packets of the requests so far and their replies. */
  lemma StepKeepsStreams(p: Party, w: World, step: Step, requests: seq<seq<byte>>, replies: seq<seq<byte>>)
    returns (requests': seq<seq<byte>>, replies': seq<seq<byte>>)
    requires Buffers(w) && Enabled(w, step) && Clean(w, step)
    requires Streams(requests, replies, w) && Named(p, w.sent, requests, replies)
    ensures Streams(requests', replies', Next(p, w, step)) && Named(p, Next(p, w, step).sent, requests', replies')
  {
    requests', replies' := requests, replies;
    match step {
      case Call(r) =>
        var f, g := NamedGrows(p, w.sent, requests, replies, Sent(w.invokeId + 1, r));
        CallKeepsStreams(requests, replies, w, r, f, g);
        requests', replies' := requests + [f], replies + [g];
      case FailedCall =>
      case ServerPoll(input) =>
        ServerKeepsStreams(p, requests, replies, w, input);
      case ClientPoll(input, timeout) =>
        NamedAreSmall(p, w.sent, requests, replies);
        ClientKeepsStreams(requests, replies, w, input, timeout);
    }
  }

  /** The invokeIds of the requests grow, and each receipt has the one of its own call. */
  ghost predicate Numbered(w: World) {
    && (forall i :: 0 <= i < |w.sent| ==> w.sent[i].id <= w.invokeId)
    && (forall i, j :: 0 <= i < j < |w.sent| ==> w.sent[i].id < w.sent[j].id)
    && (w.waiting ==> w.sent != [] && w.sent[|w.sent| - 1].id == w.invokeId)
    && (forall i :: 0 <= i < |w.received| ==> OwnId(w.sent, w.received[i]))
  }

  predicate OwnId(sent: seq<Sent>, c: Receipt) {
    c.call < |sent| && c.id == sent[c.call].id
  }

  lemma CallKeepsNumbers(w: World, r: Request, f: seq<byte>)
    requires Numbered(w)
    ensures Numbered(AfterCall(w, r, f)) && Numbered(AfterFailedCall(w).(waiting := false))
  {
    var w' := AfterCall(w, r, f);
    forall i | 0 <= i < |w'.received|
      ensures OwnId(w'.sent, w'.received[i])
    {
      assert OwnId(w.sent, w.received[i]);
    }
  }

  lemma ReceiptKeepsNumbers(w: World, c: Receipt, toClient: seq<byte>, m: seq<byte>)
    requires Numbered(w) && w.waiting && c.call == |w.sent| - 1 && c.id == w.invokeId
    ensures Numbered(w.(toClient := toClient, clientIn := m, waiting := false, received := w.received + [c]))
  {
  }

  lemma {:induction false} ClientKeepsNumbers(w: World, input: seq<Event>, timeout: int)
    requires Buffers(w) && w.waiting && StreamBytes(input) <= w.toClient && Numbered(w)
    ensures Numbered(AfterClient(w, input, timeout))
  {
    var r := Read(input, timeout, w.clientIn);
    ReadTakes(input, timeout, w.clientIn);
    if r.rc > 0 {
      var c := Receipt(|w.sent| - 1, w.failed, w.invokeId, r.rc, r.image);
      ReceiptKeepsNumbers(w, c, w.toClient[r.taken..], r.image);
    }
  }

  lemma StepKeepsNumbers(p: Party, w: World, step: Step)
    requires Buffers(w) && Enabled(w, step) && Numbered(w)
    ensures Numbered(Next(p, w, step))
  {
    match step {
      case Call(r) => CallKeepsNumbers(w, r, RequestFrame(p, ToU32(w.invokeId + 1), r));
      case FailedCall => CallKeepsNumbers(w, Request.ReadState, []);
      case ServerPoll(input) =>
      case ClientPoll(input, timeout) => ClientKeepsNumbers(w, input, timeout);
    }
  }

  lemma {:induction false} RunKeepsStreams(p: Party, worlds: seq<World>, steps: seq<Step>, n: nat)
    returns (requests: seq<seq<byte>>, replies: seq<seq<byte>>)
    requires Run(p, worlds, steps) && n <= |steps|
    ensures Streams(requests, replies, worlds[n]) && Named(p, worlds[n].sent, requests, replies)
    ensures Numbered(worlds[n])
    decreases n
  {
    if n == 0 {
      requests, replies := [], [];
      assert requests[0..] == requests[0..0] == [] && Concat([]) == [];
    } else {
      requests, replies := RunKeepsStreams(p, worlds, steps, n - 1);
      assert StepTo(p, worlds[n - 1], steps[n - 1], worlds[n]);
      StepKeepsNumbers(p, worlds[n - 1], steps[n - 1]);
      requests, replies := StepKeepsStreams(p, worlds[n - 1], steps[n - 1], requests, replies);
    }
  }

  lemma ReachableStreams(p: Party, w: World) returns (requests: seq<seq<byte>>, replies: seq<seq<byte>>)
    requires Reachable(p, w)
    ensures Streams(requests, replies, w) && Named(p, w.sent, requests, replies) && Numbered(w)
  {
    var worlds, steps :| Run(p, worlds, steps) && worlds[|steps|] == w;
    requests, replies := RunKeepsStreams(p, worlds, steps, |steps|);
  }

  // ---------------------------------------------------------------- main results

  /**
    In every run in which failed reads took no byte: receipt number `j`, obtained
    by the `n`-th call that sent a request after `t` such calls had failed to read,
    holds the reply to request number `n - t`, which is `j`.
   */
  lemma ReplyAlignment(p: Party, w: World, j: nat)
    requires Reachable(p, w) && j < |w.received|
    ensures j < |w.sent| && Servable(w.sent[j].request) && |w.received[j].image| == MAXDATALEN
    ensures var c, g := w.received[j], Reply(p, ToU32(w.sent[j].id), w.sent[j].request);
      && j == c.call - c.lag
      && c.rc == |g| && g <= c.image
      && c.lag <= w.failed && c.call < |w.sent|
  {
    var requests, replies := ReachableStreams(p, w);
    ReceiptsAt(replies, w.received, w.failed, j, j);
    assert Pair(p, w.sent[j], requests[j], replies[j]);
  }

  /** What the packed view shows of a reply that was received. */
  lemma ReceiptSeen(p: Party, w: World, j: nat)
    requires Reachable(p, w) && j < |w.received|
    ensures j < |w.sent| && Servable(w.sent[j].request) && |w.received[j].image| == MAXDATALEN
    ensures var m, id, q := w.received[j].image, ToU32(w.sent[j].id), w.sent[j].request;
      && InvokeIn(m) == id && CommandIn(m) == Command(q) && ErrorIn(m) == 0 && ResultIn(m) == 0
      && w.received[j].rc == DATA + |ReplyBody(id, q)|
      && m[DATA..DATA + |ReplyBody(id, q)|] == ReplyBody(id, q)
  {
    ReplyAlignment(p, w, j);
    ReplySeen(p, ToU32(w.sent[j].id), w.sent[j].request, w.received[j].image);
  }

  /**
    The reply carries the invokeId of the request that is `lag` calls older than
    the call that receives it; it is the invokeId of the connection at that time
    exactly when no earlier call had failed to read, and older otherwise.  Calls
    that could not send use up invokeIds and do not disturb this.
   */
  lemma InvokeIdTellsLag(p: Party, w: World, j: nat)
    requires Reachable(p, w) && j < |w.received| && w.invokeId < 0x8000_0000
    ensures var c := w.received[j];
      && |c.image| == MAXDATALEN && 0 <= c.call - c.lag && c.call < |w.sent|
      && c.id == w.sent[c.call].id
      && InvokeIn(c.image) == w.sent[c.call - c.lag].id <= c.id
      && (InvokeIn(c.image) == c.id <==> c.lag == 0)
      && (w.failed == 0 ==> InvokeIn(c.image) == c.id)
  {
    ReceiptIds(p, w, j);
    ReceiptInvokeId(p, w, j);
  }

  lemma ReceiptInvokeId(p: Party, w: World, j: nat)
    requires Reachable(p, w) && j < |w.received|
    ensures |w.received[j].image| == MAXDATALEN && j < |w.sent|
    ensures InvokeIn(w.received[j].image) == ToU32(w.sent[j].id)
  {
    ReceiptSeen(p, w, j);
  }

  lemma ReceiptIds(p: Party, w: World, j: nat)
    requires Reachable(p, w) && j < |w.received|
    ensures var c := w.received[j];
      && j == c.call - c.lag && c.call < |w.sent| && c.lag <= w.failed
      && c.id == w.sent[c.call].id <= w.invokeId
      && w.sent[j].id <= c.id && (w.sent[j].id == c.id <==> c.lag == 0)
  {
    var requests, replies := ReachableStreams(p, w);
    ReceiptsAt(replies, w.received, w.failed, j, j);
    assert OwnId(w.sent, w.received[j]);
    IdsGrow(w, j, w.received[j].call);
  }

  lemma IdsGrow(w: World, i: nat, j: nat)
    requires Numbered(w) && i <= j < |w.sent|
    ensures w.sent[i].id <= w.sent[j].id <= w.invokeId
    ensures w.sent[i].id == w.sent[j].id <==> i == j
  {
  }

  /** The lag never shrinks, so a connection that has lost step never regains it. */
  lemma LagNeverShrinks(p: Party, w: World, i: nat, j: nat)
    requires Reachable(p, w) && i <= j < |w.received|
    ensures w.received[i].lag <= w.received[j].lag
    ensures i < j ==> w.received[i].call < w.received[j].call
  {
    var requests, replies := ReachableStreams(p, w);
    ReceiptsAt(replies, w.received, w.failed, i, j);
  }
}
