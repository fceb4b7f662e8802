/** Calls that receive the reply to an older call, and runs in which that happens. */
module Lagging {
  import opened Bytes
  import opened AdsH
  import opened Kernel
  import opened AdsIo
  import opened Requests
  import opened Ads
  import opened AdsServer
  import opened Framing
  import opened EndToEnd
  import opened Runs
  import opened Alignment

  /**
    What a read call makes of the reply it gets: it accepts the data meant for the
    older call, and when that call was of another kind it returns success without
    any data.
   */
  lemma LaggingRead(p: Party, w: World, j: nat, length: u32)
    requires Reachable(p, w) && j < |w.received|
    ensures var c := w.received[j];
      && j == c.call - c.lag && j < |w.sent| && Servable(w.sent[j].request) && |c.image| == MAXDATALEN
      && var o, q := DecodeRead(c.rc, 0, c.image, length, true), w.sent[j].request;
      && (q.ReadData? && q.length <= length ==>
            o == ReadOutcome(0, q.length, Some(q.length), Copy(ReadPayload(ToU32(w.sent[j].id), q.length))))
      && (q.ReadData? && q.length > length ==> o.ret == 0x705 && o.copied == NoCopy)
      && (!q.ReadData? ==> o == ReadOutcome(0, c.rc, None, NoCopy))
  {
    ReplyAlignment(p, w, j);
    ReceiptSeen(p, w, j);
    var c, q := w.received[j], w.sent[j].request;
    if q.ReadData? {
      SizedReplySeen(q.length, ReadPayload(ToU32(w.sent[j].id), q.length), c.image);
    }
  }

  /** The same for a read-write call. */
  lemma LaggingReadWrite(p: Party, w: World, j: nat, length: u32)
    requires Reachable(p, w) && j < |w.received|
    ensures var c := w.received[j];
      && j < |w.sent| && Servable(w.sent[j].request) && |c.image| == MAXDATALEN
      && var o, q := DecodeReadWrite(c.rc, 0, c.image, length), w.sent[j].request;
      && (q.ReadWrite? && q.length <= length ==>
            o == ReadOutcome(0, c.rc, Some(q.length), Copy((Le32(ToU32(w.sent[j].id)) + Zeros(450))[..q.length])))
      && (q.ReadWrite? && q.length > length ==> o == ReadOutcome(0x705, c.rc, None, NoCopy))
      && (!q.ReadWrite? ==> o == ReadOutcome(0, c.rc, None, NoCopy))
  {
    ReceiptSeen(p, w, j);
    var c, q := w.received[j], w.sent[j].request;
    if q.ReadWrite? {
      SizedReplySeen(q.length, (Le32(ToU32(w.sent[j].id)) + Zeros(450))[..q.length], c.image);
    }
  }

  /**
    The other four calls return 0 for the reply to any older request; a state or
    device call delivers something exactly when that request was of its kind.
   */
  lemma LaggingCalls(p: Party, w: World, j: nat)
    requires Reachable(p, w) && j < |w.received|
    ensures var c := w.received[j];
      && j < |w.sent| && |c.image| == MAXDATALEN
      && var q := w.sent[j].request;
      && DecodeWrite(c.rc, 0, c.image) == 0
      && DecodeControl(c.rc, 0, c.image) == 0
      && DecodeState(c.rc, 0, c.image) == StateOutcome(0, if q.ReadState? then Some((5, 0xA)) else None)
      && DecodeDevInfo(c.rc, 0, c.image).ret == 0
      && (DecodeDevInfo(c.rc, 0, c.image).info == None <==> !q.ReadDevInfo?)
  {
    ReceiptSeen(p, w, j);
    var c, q := w.received[j], w.sent[j].request;
    if q.ReadState? {
      StateSeen(c.image);
    }
  }

  // ---------------------------------------------------------------- lagging happens

  lemma CallReaches(p: Party, w: World, r: Request, f: seq<byte>)
    requires Reachable(p, w) && Buffers(w) && !w.waiting && Servable(r)
    requires f == RequestFrame(p, ToU32(w.invokeId + 1), r)
    ensures Reachable(p, AfterCall(w, r, f)) && Buffers(AfterCall(w, r, f))
  {
    var w' := CallSteps(p, w, r, f);
    ReachableIsClosed(p, w, Call(r), w');
  }

  lemma CallSteps(p: Party, w: World, r: Request, f: seq<byte>) returns (w': World)
    requires Buffers(w) && !w.waiting && Servable(r) && f == RequestFrame(p, ToU32(w.invokeId + 1), r)
    ensures StepTo(p, w, Call(r), w') && w' == AfterCall(w, r, f)
  {
    w' := Next(p, w, Call(r));
  }

  /** The call ends without a byte of reply. */
  lemma SilenceReaches(p: Party, w: World)
    requires Reachable(p, w) && Buffers(w) && w.waiting
    ensures Reachable(p, w.(waiting := false, failed := w.failed + 1))
  {
    NothingComes(0, w.clientIn);
    DropNothing(w.toClient, 0);
    ReachableIsClosed(p, w, ClientPoll([], 0), w.(waiting := false, failed := w.failed + 1));
  }

  /** The server answers the only request on its channel. */
  lemma ServeReaches(p: Party, w: World, id: u32, r: Request, f: seq<byte>, g: seq<byte>) returns (w': World)
    requires Reachable(p, w) && Buffers(w) && Servable(r) && f == RequestFrame(p, id, r) && g == Reply(p, id, r)
    requires w.toServer == f
    ensures Reachable(p, w') && Buffers(w')
    ensures w' == w.(toServer := [], toClient := w.toClient + g, served := w.served + 1,
                     serverIn := w'.serverIn, serverOut := w'.serverOut)
  {
    RequestIsRead(p, id, r, f, w.serverIn, w.serverOut);
    ArrivingComes(f, SERVER_TIMEOUT);
    w' := ServedWorld(w, f);
    ReachableIsClosed(p, w, ServerPoll(Arriving(f)), w');
  }

  lemma RequestIsRead(p: Party, id: u32, r: Request, f: seq<byte>, m: seq<byte>, out: seq<byte>)
    requires Servable(r) && f == RequestFrame(p, id, r) && |m| == |out| == MAXDATALEN
    ensures var x := Read(Arriving(f), SERVER_TIMEOUT, m);
      && x.rc == |f| > 0 && Answerable(x.image) && ReplyFrame(x.image, out) == Reply(p, id, r)
  {
    FrameEquation(p, id, r);
    BodySize(r);
    ArrivingComes(f, SERVER_TIMEOUT);
    ReadWhole(Arriving(f), SERVER_TIMEOUT, m, f);
    ReplyIs(p, id, r, Read(Arriving(f), SERVER_TIMEOUT, m).image, out);
  }

  lemma ServedWorld(w: World, f: seq<byte>) returns (w': World)
    requires Buffers(w) && w.toServer == f && StreamBytes(Arriving(f)) == f
    requires var r := Read(Arriving(f), SERVER_TIMEOUT, w.serverIn); r.rc == |f| > 0 && Answerable(r.image)
    ensures w' == AfterServer(w, Arriving(f)) && Buffers(w')
    ensures w' == w.(toServer := [], served := w.served + 1, serverIn := w'.serverIn, serverOut := w'.serverOut,
                     toClient := w.toClient
                                 + ReplyFrame(Read(Arriving(f), SERVER_TIMEOUT, w.serverIn).image, w.serverOut))
  {
    ReadTakes(Arriving(f), SERVER_TIMEOUT, w.serverIn);
    w' := AfterServer(w, Arriving(f));
  }

  /** The waiting call receives the only reply on its channel. */
  lemma ReceiveReaches(p: Party, w: World, g: seq<byte>) returns (w': World)
    requires Reachable(p, w) && Buffers(w) && w.waiting && w.sent != []
    requires IsFrame(g) && |g| <= MAXDATALEN && w.toClient == g
    ensures Reachable(p, w') && |w'.clientIn| == MAXDATALEN && g <= w'.clientIn
    ensures w' == w.(toClient := [], clientIn := w'.clientIn, waiting := false,
                     received := w.received + [Receipt(|w.sent| - 1, w.failed, w.invokeId, |g|, w'.clientIn)])
  {
    ArrivingComes(g, 0);
    ReadWhole(Arriving(g), 0, w.clientIn, g);
    ReadTakes(Arriving(g), 0, w.clientIn);
    w' := AfterClient(w, Arriving(g), 0);
    ReachableIsClosed(p, w, ClientPoll(Arriving(g), 0), w');
  }

  /** The first call got no reply in time, and the reply is now on its way. */
  predicate OneBehind(w: World, first: Request, g: seq<byte>) {
    && |w.clientIn| == |w.serverIn| == |w.serverOut| == MAXDATALEN
    && w.invokeId == 1 && !w.waiting && w.toServer == [] && w.toClient == g
    && w.sent == [Sent(1, first)] && w.served == 1 && w.failed == 1 && w.received == []
  }

  lemma FirstFails(p: Party, first: Request, f: seq<byte>, g: seq<byte>) returns (w: World)
    requires Servable(first) && f == RequestFrame(p, 1, first) && g == Reply(p, 1, first)
    ensures Reachable(p, w) && OneBehind(w, first, g)
  {
    InitIsReachable(p);
    CallReaches(p, Init(), first, f);
    w := AfterCall(Init(), first, f);
    SilenceReaches(p, w);
    w := ServeReaches(p, w.(waiting := false, failed := 1), 1, first, f, g);
  }

  lemma SecondReceives(p: Party, w0: World, first: Request, g: seq<byte>, second: Request, f: seq<byte>)
    returns (w: World)
    requires Reachable(p, w0) && OneBehind(w0, first, g) && IsFrame(g) && |g| <= MAXDATALEN
    requires Servable(second) && f == RequestFrame(p, 2, second)
    ensures Reachable(p, w) && w.sent == [Sent(1, first), Sent(2, second)] && w.failed == 1
    ensures |w.clientIn| == MAXDATALEN && g <= w.clientIn && w.received == [Receipt(1, 1, 2, |g|, w.clientIn)]
  {
    CallReaches(p, w0, second, f);
    w := ReceiveReaches(p, AfterCall(w0, second, f), g);
  }

  /**
    For any two requests there is a run in which the first call gets no reply in
    time and the second call receives the reply to the first.
   */
  lemma LagHappens(p: Party, first: Request, second: Request) returns (w: World)
    requires Servable(first) && Servable(second)
    ensures Reachable(p, w) && w.sent == [Sent(1, first), Sent(2, second)] && w.failed == 1 && |w.received| == 1
    ensures var c := w.received[0];
      c.call == 1 && c.lag == 1 && c.id == 2 && Reply(p, 1, first) <= c.image && InvokeIdOf(c) == 1
  {
    var g := Reply(p, 1, first);
    w := FirstFails(p, first, RequestFrame(p, 1, first), g);
    ReplyIsFrame(p, 1, first);
    w := SecondReceives(p, w, first, g, second, RequestFrame(p, 2, second));
    ReplySeen(p, 1, first, w.clientIn);
  }

  /** The invokeId in the packet that was received. */
  function InvokeIdOf(c: Receipt): int {
    if |c.image| == MAXDATALEN then InvokeIn(c.image) else -1
  }
}
