/** The example server: examples/ADSserver.c. */
module AdsServer {
  import opened Bytes
  import opened AdsH
  import opened Kernel
  import opened AdsIo
  import opened Ads
  import opened Framing

  const CLEARED := 500
  const DUMMY := 352           // sizeof(dummyRes)
  const SERVER_TIMEOUT := 900_000
  const MAX_WAITS := 1000

  const PLC_COUPLER: seq<byte> := [80, 76, 67, 32, 67, 79, 85, 80, 76, 69, 82]

  /** `dummyRes`: 1 to 16, twenty-two times. */
  function DummyRes(): (s: seq<byte>)
    ensures |s| == DUMMY
  {
    seq(DUMMY, i => i % 16 + 1)
  }

  // ---------------------------------------------------------------- specification

  /**
    Requests the server can answer inside its buffers: a read has offset 0 (the
    copy out of `dummyRes` has a fixed length), and the reply fits `msgOut`.
   */
  predicate Answerable(m: seq<byte>)
    requires |m| == MAXDATALEN
  {
    && (CommandIn(m) == CMD_READ ==> Get32(m, 42) == 0 && Get32(m, 46) <= 8146)
    && (CommandIn(m) == CMD_READ_WRITE ==> Get32(m, 46) <= 8146)
  }

  /** `dataLength` of the reply. */
  function ReplyLength(m: seq<byte>): (n: u32)
    requires |m| == MAXDATALEN && Answerable(m)
    ensures n <= 8154
  {
    var command := CommandIn(m);
    if command == CMD_READ_DEV_INFO then 32
    else if command == CMD_READ_STATE then 8
    else if command == CMD_READ_WRITE || command == CMD_READ then 8 + Get32(m, 46)
    else 4
  }

  /** What the dispatch stores at the start of the data part. */
  function ReplyStored(m: seq<byte>): (s: seq<byte>)
    requires |m| == MAXDATALEN
    ensures 4 <= |s| <= 364
  {
    var command := CommandIn(m);
    if command == CMD_READ_DEV_INFO then Le32(0) + [185, 0] + Le16(0) + PLC_COUPLER
    else if command == CMD_READ_STATE then Le32(0) + Le16(5) + Le16(0xA)
    else if command == CMD_READ_WRITE then Le32(0) + Le32(Get32(m, 46)) + Le32(InvokeIn(m))
    else if command == CMD_READ then Le32(0) + Le32(Get32(m, 46)) + Le32(InvokeIn(m)) + DummyRes()
    else Le32(0)
  }

  /** The reply goes back with the addresses swapped and the command and invokeId of the request. */
  function ReplyHeader(q: AmsHeader, dataLength: u32): AmsHeader {
    AmsHeader(q.sourceId, q.sourcePort, q.targetId, q.targetPort, q.commandId, 5, dataLength, 0, q.invokeId)
  }

  /** `msgOut` with its first 500 bytes set to 0. */
  function Cleared(out: seq<byte>): (s: seq<byte>)
    requires |out| == MAXDATALEN
    ensures |s| == MAXDATALEN
  {
    Put(out, 0, Zeros(CLEARED))
  }

  /** `msgOut` after `ranalyze` built the reply to the packet in `m`. */
  function ReplyImage(m: seq<byte>, out: seq<byte>): (s: seq<byte>)
    requires |m| == MAXDATALEN == |out| && Answerable(m)
    ensures |s| == MAXDATALEN
  {
    var n := ReplyLength(m);
    Put(Put(Cleared(out), DATA, ReplyStored(m)), 0, HeaderBytes(AMS_HEADER + n, ReplyHeader(HeaderView(m), n)))
  }

  /** The bytes that are sent back. */
  function ReplyFrame(m: seq<byte>, out: seq<byte>): seq<byte>
    requires |m| == MAXDATALEN == |out| && Answerable(m)
  {
    ReplyImage(m, out)[..DATA + ReplyLength(m)]
  }

  /**
    A run of the server loop: what each read returned, the buffers handed to
    `ranalyze`, and the socket at the end.  A request that is not answerable
    ends the run, because what the program does with it is not defined.
   */
  datatype ServerRun = ServerRun(rcs: seq<int>, handled: seq<seq<byte>>, socket: Socket)

  ghost function Serve(s: Socket, m: seq<byte>, out: seq<byte>, waitCount: nat): ServerRun
    requires |m| == MAXDATALEN == |out|
    decreases |s.input|, MAX_WAITS - waitCount
  {
    if waitCount >= MAX_WAITS then ServerRun([], [], s)
    else
      var r := Read(s.input, SERVER_TIMEOUT, m);
      ReadShrinks(s.input, SERVER_TIMEOUT, m);
      var s' := s.(input := r.input);
      if r.rc > 0 then
        if !Answerable(r.image) then ServerRun([r.rc], [r.image], s')
        else
          var run := Serve(Write(0, s', ReplyFrame(r.image, out)).socket, r.image, ReplyImage(r.image, out), 0);
          ServerRun([r.rc] + run.rcs, [r.image] + run.handled, run.socket)
      else
        var run := Serve(s', r.image, out, waitCount + 1);
        ServerRun([r.rc] + run.rcs, run.handled, run.socket)
  }

  /** Failed reads at the end of a run. */
  function TrailingFailures(rcs: seq<int>): nat {
    if rcs == [] || rcs[|rcs| - 1] > 0 then 0 else 1 + TrailingFailures(rcs[..|rcs| - 1])
  }

  function CountSuccesses(rcs: seq<int>): nat {
    if rcs == [] then 0 else CountSuccesses(rcs[..|rcs| - 1]) + (if rcs[|rcs| - 1] > 0 then 1 else 0)
  }

  ghost predicate AllAnswerable(handled: seq<seq<byte>>) {
    forall i :: 0 <= i < |handled| ==> |handled[i]| == MAXDATALEN && Answerable(handled[i])
  }

  // ---------------------------------------------------------------- lemmas

  /** A successful read uses up events; a failed one adds none. */
  lemma ReadShrinks(input: seq<Event>, timeout: int, image: seq<byte>)
    requires |image| == MAXDATALEN
    ensures var r := Read(input, timeout, image);
      && |r.input| <= |input| && (r.rc > 0 ==> |r.input| < |input|)
  {
    var r := ReadCases(input, timeout, image);
    NextArrives(input, BudgetOf(timeout), r);
  }

  /** The cleared buffer already holds the zero result that some branches leave out. */
  lemma ZeroResult(out: seq<byte>)
    requires |out| == MAXDATALEN
    ensures Put(Cleared(out), DATA, Le32(0)) == Cleared(out)
  {
  }

  lemma DevInfoStored(out: seq<byte>, a: seq<byte>, b: seq<byte>, c: seq<byte>)
    requires |out| == MAXDATALEN && |a| == |b| == 2 && |c| == 11
    ensures Put(Put(Put(Cleared(out), 42, a), 44, b), 46, c) == Put(Cleared(out), DATA, Le32(0) + a + b + c)
  {
  }

  lemma StateStored(z: seq<byte>, a: seq<byte>, b: seq<byte>, c: seq<byte>)
    requires |z| == MAXDATALEN && |a| == 4 && |b| == |c| == 2
    ensures Put(Put(Put(z, 38, a), 42, b), 44, c) == Put(z, DATA, a + b + c)
  {
  }

  // ---------------------------------------------------------------- the reply, byte by byte

  /** The requests that can be answered, from the words at 22, 42 and 46. */
  lemma AnswerableIff(m: seq<byte>)
    requires |m| == 8192
    ensures Answerable(m) <==>
      && (Get16(m, 22) == 2 ==> Get32(m, 42) == 0 && Get32(m, 46) <= 8146)
      && (Get16(m, 22) == 9 ==> Get32(m, 46) <= 8146)
  {
  }

  /**
    The 38 header bytes of the reply to any packet that can be answered, and its
    length: 32 bytes of data for the device info (1), 8 for the state (4), 8 and
    the length asked for for a read (2) and a read-write (9), 4 for all others.
   */
  lemma ReplyHeaderOnTheWire(m: seq<byte>, out: seq<byte>)
    requires |m| == 8192 == |out| && Answerable(m)
    ensures var f, c := ReplyFrame(m, out), Get16(m, 22);
      var n := if c == 1 then 32 else if c == 4 then 8 else if c == 2 || c == 9 then 8 + Get32(m, 46) else 4;
      && |f| == 38 + n && Get16(f, 0) == 0 && Get32(f, 2) == 32 + n
      && f[6..12] == m[14..20] && Get16(f, 12) == Get16(m, 20)
      && f[14..20] == m[6..12] && Get16(f, 20) == Get16(m, 12)
      && Get16(f, 22) == c && Get16(f, 24) == 5
      && Get32(f, 26) == n && Get32(f, 30) == 0 && Get32(f, 34) == Get32(m, 34)
  {
    var n := ReplyLength(m);
    var h := ReplyHeader(HeaderView(m), n);
    var f := ReplyFrame(m, out);
    assert f[..DATA] == HeaderBytes(AMS_HEADER + n, h);
    HeaderRoundTrip(AMS_HEADER + n, h, f);
    assert HeaderView(f) == h;
  }

  /** What the data part of a reply holds, as far as it reaches, from the words at 34 and 46 of the packet. */
  lemma StoredOnTheWire(m: seq<byte>) returns (s: seq<byte>)
    requires |m| == 8192 && Answerable(m)
    ensures s == ReplyStored(m) && s[..4] == [0, 0, 0, 0]
    ensures match Get16(m, 22)
      case 1 => s[4..] == [185, 0, 0, 0] + [80, 76, 67, 32, 67, 79, 85, 80, 76, 69, 82]
      case 4 => s[4..] == [5, 0, 10, 0]
      case 9 => |s| == 12 && s[4..8] == m[46..50] && s[8..12] == m[34..38]
      case 2 =>
        && |s| == 364 && s[4..8] == m[46..50] && s[8..12] == m[34..38]
        && forall i :: 0 <= i < 352 ==> s[12 + i] == i % 16 + 1
      case _ => |s| == 4
  {
    s := ReplyStored(m);
    Le32Get32(m, 46, Get32(m, 46));
    Le32Get32(m, 34, Get32(m, 34));
  }

  /** Byte `i` of the data part is what was stored there, 0 up to byte 500 of the packet, and stale behind that. */
  lemma ReplyDataOnTheWire(m: seq<byte>, out: seq<byte>, i: nat)
    requires |m| == 8192 == |out| && Answerable(m) && 38 <= i < |ReplyFrame(m, out)|
    ensures ReplyFrame(m, out)[i]
         == if i < 38 + |ReplyStored(m)| then ReplyStored(m)[i - 38] else if i < 500 then 0 else out[i]
  {
  }

  /** The server waits for 900 seconds at most, and that long when nothing comes. */
  lemma RoundWaits(s: Socket, m: seq<byte>)
    requires |m| == MAXDATALEN
    ensures var r := Read(s.input, SERVER_TIMEOUT, m);
      r.elapsed <= 900_000_000 && (r.rc == -1 ==> r.elapsed == 900_000_000)
  {
    OneBudget(s.input, SERVER_TIMEOUT, m);
  }

  /** The failed reads at the end are those behind the last one that succeeded. */
  lemma {:induction false} TrailingFailuresAre(rcs: seq<int>)
    ensures var n := TrailingFailures(rcs);
      && n <= |rcs|
      && (forall i :: |rcs| - n <= i < |rcs| ==> rcs[i] <= 0)
      && (n < |rcs| ==> rcs[|rcs| - n - 1] > 0)
  {
    if rcs != [] && rcs[|rcs| - 1] <= 0 {
      TrailingFailuresAre(rcs[..|rcs| - 1]);
    }
  }

  // ---------------------------------------------------------------- the program

  /** The `switch` of `ranalyze`: the data part and `dataLength`. */
  method Dispatch(dc: ADSConnection) returns (n: u32)
    requires dc.Valid() && Answerable(dc.msgIn[..])
    modifies dc.msgOut
    ensures n == ReplyLength(dc.msgIn[..])
    ensures dc.msgOut[..] == Put(Put(Cleared(old(dc.msgOut[..])), DATA, ReplyStored(dc.msgIn[..])), 26, Le32(n))
  {
    var p := dc.msgIn[..];
    Store(dc.msgOut, 0, Zeros(CLEARED));
    ghost var z := dc.msgOut[..];
    var command := CommandIn(p);
    if command == CMD_READ_DEV_INFO {
      DevInfoStored(old(dc.msgOut[..]), [185, 0], Le16(0), PLC_COUPLER);
      Store(dc.msgOut, 42, [185, 0]);
      Store(dc.msgOut, 44, Le16(0));
      Store(dc.msgOut, 46, PLC_COUPLER);
      n := 32;
    } else if command == CMD_READ_STATE {
      StateStored(z, Le32(0), Le16(5), Le16(0xA));
      Store(dc.msgOut, 38, Le32(0));
      Store(dc.msgOut, 42, Le16(5));
      Store(dc.msgOut, 44, Le16(0xA));
      n := 8;
    } else if command == CMD_WRITE {
      Store(dc.msgOut, 38, Le32(0));
      n := 4;
    } else if command == CMD_READ_WRITE {
      WordsStored(z, Le32(0), Le32(Get32(p, 46)), Le32(InvokeIn(p)), []);
      Store(dc.msgOut, 38, Le32(0));
      Store(dc.msgOut, 42, Le32(Get32(p, 46)));
      n := 8 + Get32(p, 46);
      Store(dc.msgOut, 46, Le32(InvokeIn(p)));
    } else if command == CMD_READ {
      WordsStored(z, Le32(0), Le32(Get32(p, 46)), Le32(InvokeIn(p)), DummyRes());
      Store(dc.msgOut, 38, Le32(0));
      Store(dc.msgOut, 42, Le32(Get32(p, 46)));
      n := 8 + Get32(p, 46);
      Store(dc.msgOut, 46, Le32(InvokeIn(p)));
      Store(dc.msgOut, 50, DummyRes());
    } else {
      ZeroResult(old(dc.msgOut[..]));
      n := 4;
    }
    Store(dc.msgOut, 26, Le32(n));
  }

  /** The stores behind the `switch`, as far as the two addresses. */
  function WithAddresses(m: seq<byte>, q: AmsHeader): (r: seq<byte>)
    requires |m| >= DATA
    ensures |r| == |m|
  {
    Put(Put(Put(Put(m, 6, q.sourceId), 12, Le16(q.sourcePort)), 14, q.targetId), 20, Le16(q.targetPort))
  }

  /** The stores after those. */
  function WithReplyFields(m: seq<byte>, q: AmsHeader): (r: seq<byte>)
    requires |m| >= DATA
    ensures |r| == |m|
  {
    Put(Put(Put(Put(m, 22, Le16(q.commandId)), 24, Le16(5)), 30, Le32(0)), 34, Le32(q.invokeId))
  }

  lemma AddressesStored(m0: seq<byte>, q: AmsHeader)
    requires |m0| >= DATA
    ensures var m := WithAddresses(m0, q);
      && m[6..12] == q.sourceId && Get16(m, 12) == q.sourcePort && m[14..20] == q.targetId
           && Get16(m, 20) == q.targetPort
      && Get16(m, 0) == Get16(m0, 0) && PacketLength(m) == PacketLength(m0) && Get32(m, 26) == Get32(m0, 26)
      && forall i :: DATA <= i < |m| ==> m[i] == m0[i]
  {
  }

  lemma ReplyFieldsStored(m0: seq<byte>, q: AmsHeader)
    requires |m0| >= DATA
    ensures var m := WithReplyFields(m0, q);
      && m[6..12] == m0[6..12] && Get16(m, 12) == Get16(m0, 12) && m[14..20] == m0[14..20]
           && Get16(m, 20) == Get16(m0, 20)
      && Get16(m, 0) == Get16(m0, 0) && PacketLength(m) == PacketLength(m0) && Get32(m, 26) == Get32(m0, 26)
      && Get16(m, 22) == q.commandId && Get16(m, 24) == 5 && Get32(m, 30) == 0 && Get32(m, 34) == q.invokeId
      && forall i :: DATA <= i < |m| ==> m[i] == m0[i]
  {
    var m := WithReplyFields(m0, q);
    Le16Get16(m, 22, q.commandId);
    assert m[22..24] == Le16(q.commandId);
    Le16Get16(m, 24, 5);
    assert m[24..26] == Le16(5);
    Le32Get32(m, 30, 0);
    assert m[30..34] == Le32(0);
    Le32Get32(m, 34, q.invokeId);
    assert m[34..38] == Le32(q.invokeId);
  }

  /** The stores of the reply header make the first 38 bytes the encoded header. */
  lemma ReplyHeaderStored(m: seq<byte>, q: AmsHeader, n: u32)
    requires |m| == MAXDATALEN && n <= 8154 && Get16(m, 0) == 0 && Get32(m, 26) == n
    ensures WithReplyFields(WithAddresses(Put(m, 2, Le32(AMS_HEADER + n)), q), q)
         == Put(m, 0, HeaderBytes(AMS_HEADER + n, ReplyHeader(q, n)))
  {
    var m2 := Put(m, 2, Le32(AMS_HEADER + n));
    Le32Get32(m2, 2, AMS_HEADER + n);
    assert m2[2..6] == Le32(AMS_HEADER + n);
    AddressesStored(m2, q);
    ReplyFieldsStored(WithAddresses(m2, q), q);
    HeaderStored(m, WithReplyFields(WithAddresses(m2, q), q), AMS_HEADER + n, ReplyHeader(q, n));
  }

  /** Where the `switch` leaves `msgOut`, storing the reply header and a zero result makes it the reply. */
  lemma ReplyBuilt(m: seq<byte>, out: seq<byte>)
    requires |m| == MAXDATALEN == |out| && Answerable(m)
    ensures var n := ReplyLength(m);
      var m1 := Put(Put(Cleared(out), DATA, ReplyStored(m)), 26, Le32(n));
      && Get16(m1, 0) == 0 && Get32(m1, 26) == n
      && Put(Put(m1, 0, HeaderBytes(AMS_HEADER + n, ReplyHeader(HeaderView(m), n))), DATA, Le32(0))
           == ReplyImage(m, out)
  {
    var n := ReplyLength(m);
    var m0 := Put(Cleared(out), DATA, ReplyStored(m));
    var m1 := Put(m0, 26, Le32(n));
    var h := HeaderBytes(AMS_HEADER + n, ReplyHeader(HeaderView(m), n));
    Le32Get32(m1, 26, n);
    assert m1[26..30] == Le32(n);
    ResultStored(m0, h, m);
    HeaderCovers(m0, 26, Le32(n), h);
  }

  /** Storing a header replaces what was stored inside it. */
  lemma HeaderCovers(m: seq<byte>, at: nat, b: seq<byte>, h: seq<byte>)
    requires |m| == MAXDATALEN && |h| == DATA && at + |b| <= DATA
    ensures Put(Put(m, at, b), 0, h) == Put(m, 0, h)
  {
  }

  /** The length field of the reply is the one that was stored. */
  lemma ReplyImageLength(m: seq<byte>, out: seq<byte>)
    requires |m| == MAXDATALEN == |out| && Answerable(m)
    ensures PacketLength(ReplyImage(m, out)) == AMS_HEADER + ReplyLength(m)
  {
    var n := ReplyLength(m);
    var h := HeaderBytes(AMS_HEADER + n, ReplyHeader(HeaderView(m), n));
    assert ReplyImage(m, out)[..DATA] == h;
    HeaderRoundTrip(AMS_HEADER + n, ReplyHeader(HeaderView(m), n), ReplyImage(m, out));
  }

  /** Every branch starts its data with a zero result, so the last store changes nothing. */
  lemma ResultStored(m0: seq<byte>, h: seq<byte>, m: seq<byte>)
    requires |m| == |m0| == MAXDATALEN && |h| == DATA
    requires forall i :: 0 <= i < 4 ==> m0[DATA + i] == ReplyStored(m)[i]
    ensures Put(Put(m0, 0, h), DATA, Le32(0)) == Put(m0, 0, h)
  {
    assert ReplyStored(m)[..4] == Le32(0);
    assert forall i :: 0 <= i < 4 ==> ReplyStored(m)[i] == ReplyStored(m)[..4][i];
  }

  /** The stores behind the `switch`: the first 38 bytes are the reply header, and the result is 0. */
  method FinishReply(dc: ADSConnection, q: AmsHeader, n: u32)
    requires dc.Valid() && n <= 8154
    requires Get16(dc.msgOut[..], 0) == 0 && Get32(dc.msgOut[..], 26) == n
    modifies dc.msgOut
    ensures dc.msgOut[..]
         == Put(Put(old(dc.msgOut[..]), 0, HeaderBytes(AMS_HEADER + n, ReplyHeader(q, n))), DATA, Le32(0))
  {
    ReplyHeaderStored(dc.msgOut[..], q, n);
    Store(dc.msgOut, 2, Le32(n + AMS_HEADER));
    Store(dc.msgOut, 6, q.sourceId);
    Store(dc.msgOut, 12, Le16(q.sourcePort));
    Store(dc.msgOut, 14, q.targetId);
    Store(dc.msgOut, 20, Le16(q.targetPort));
    Store(dc.msgOut, 22, Le16(q.commandId));
    Store(dc.msgOut, 24, Le16(5));
    Store(dc.msgOut, 30, Le32(0));
    Store(dc.msgOut, 34, Le32(q.invokeId));
    Store(dc.msgOut, DATA, Le32(0));
  }

  /** `ranalyze`. */
  method Ranalyze(k: Kernel, dc: ADSConnection)
    requires Usable(k, dc) && Answerable(dc.msgIn[..])
    modifies k`sockets, dc.msgOut
    ensures dc.msgOut[..] == ReplyImage(dc.msgIn[..], old(dc.msgOut[..]))
    ensures k.sockets == old(k.sockets)[dc.iface.sd :=
      Write(dc.iface.error, old(k.sockets)[dc.iface.sd], ReplyFrame(dc.msgIn[..], old(dc.msgOut[..]))).socket]
  {
    var q := HeaderView(dc.msgIn[..]);
    ReplyBuilt(dc.msgIn[..], dc.msgOut[..]);
    var n := Dispatch(dc);
    FinishReply(dc, q, n);
    ReplyImageLength(dc.msgIn[..], old(dc.msgOut[..]));
    var rc, error := WritePacket(k, dc.iface, dc.msgOut);
  }

  /** What is left of a run after some rounds of the loop. */
  ghost predicate Continues(run: ServerRun, rcs: seq<int>, handled: seq<seq<byte>>, rest: ServerRun) {
    run == ServerRun(rcs + rest.rcs, handled + rest.handled, rest.socket)
  }

  lemma ContinuesStart(run: ServerRun)
    ensures Continues(run, [], [], run)
  {
  }

  lemma ContinuesEnd(run: ServerRun, rcs: seq<int>, handled: seq<seq<byte>>, rest: ServerRun)
    requires Continues(run, rcs, handled, rest) && rest.rcs == [] && rest.handled == []
    ensures run == ServerRun(rcs, handled, rest.socket)
  {
  }

  lemma ContinuesStep(run: ServerRun, rcs: seq<int>, handled: seq<seq<byte>>, rest: ServerRun,
                      rc: int, h: seq<seq<byte>>, next: ServerRun)
    requires Continues(run, rcs, handled, rest)
    requires rest == ServerRun([rc] + next.rcs, h + next.handled, next.socket)
    ensures Continues(run, rcs + [rc], handled + h, next)
  {
  }

  /** The socket and the buffers of the server after one round of its loop. */
  ghost function AfterRound(s: Socket, m: seq<byte>, out: seq<byte>): (Socket, seq<byte>, seq<byte>)
    requires |m| == MAXDATALEN == |out|
    requires var r := Read(s.input, SERVER_TIMEOUT, m); r.rc > 0 ==> Answerable(r.image)
  {
    var r := Read(s.input, SERVER_TIMEOUT, m);
    var s' := s.(input := r.input);
    if r.rc > 0 then (Write(0, s', ReplyFrame(r.image, out)).socket, r.image, ReplyImage(r.image, out))
    else (s', r.image, out)
  }

  /** One round takes the first entry off what is left of the run. */
  lemma AfterRoundIs(s: Socket, m: seq<byte>, out: seq<byte>, run: ServerRun,
                     rcs: seq<int>, handled: seq<seq<byte>>, waitCount: nat)
    returns (s': Socket, m': seq<byte>, out': seq<byte>)
    requires |m| == MAXDATALEN == |out| && waitCount < MAX_WAITS
    requires Continues(run, rcs, handled, Serve(s, m, out, waitCount)) && AllAnswerable(run.handled)
    ensures |m'| == MAXDATALEN == |out'|
    ensures var r := Read(s.input, SERVER_TIMEOUT, m);
      && (r.rc > 0 ==> Answerable(r.image))
      && (s', m', out') == AfterRound(s, m, out)
      && |s'.input| <= |s.input| && (r.rc > 0 ==> |s'.input| < |s.input|)
      && Continues(run, rcs + [r.rc], if r.rc > 0 then handled + [r.image] else handled,
                   Serve(s', m', out', if r.rc > 0 then 0 else waitCount + 1))
  {
    var rest := Serve(s, m, out, waitCount);
    var r := Read(s.input, SERVER_TIMEOUT, m);
    ReadShrinks(s.input, SERVER_TIMEOUT, m);
    if r.rc > 0 {
      assert rest.handled[0] == r.image;
      assert run.handled[|handled|] == r.image;
      var t := AfterRound(s, m, out);
      s', m', out' := t.0, t.1, t.2;
      ContinuesStep(run, rcs, handled, rest, r.rc, [r.image], Serve(s', m', out', 0));
    } else {
      s', m', out' := s.(input := r.input), r.image, out;
      ContinuesStep(run, rcs, handled, rest, r.rc, [], Serve(s', m', out', waitCount + 1));
      assert handled + [] == handled;
    }
  }

  /** The body of the loop. */
  method Round(k: Kernel, dc: ADSConnection) returns (rc: int)
    requires Usable(k, dc) && dc.iface.error == 0 && dc.iface.timeout == SERVER_TIMEOUT
    requires var r := Read(k.sockets[dc.iface.sd].input, SERVER_TIMEOUT, dc.msgIn[..]); r.rc > 0 ==> Answerable(r.image)
    modifies k`sockets, k`clock, dc`AnswLen, dc.msgIn, dc.msgOut
    ensures rc == dc.AnswLen == Read(old(k.sockets)[dc.iface.sd].input, SERVER_TIMEOUT, old(dc.msgIn[..])).rc
    ensures var (s', m', out') := AfterRound(old(k.sockets)[dc.iface.sd], old(dc.msgIn[..]), old(dc.msgOut[..]));
      && k.sockets == old(k.sockets)[dc.iface.sd := s'] && dc.msgIn[..] == m' && dc.msgOut[..] == out'
    ensures rc > 0 ==> dc.msgIn[..] == Read(old(k.sockets)[dc.iface.sd].input, SERVER_TIMEOUT, old(dc.msgIn[..])).image
  {
    var error;
    dc.AnswLen, error := ReadPacket(k, dc.iface, dc.msgIn);
    rc := dc.AnswLen;
    if rc > 0 {
      Ranalyze(k, dc);
    }
  }

  lemma {:induction false} CountRead(rcs: seq<int>, rc: int)
    ensures TrailingFailures(rcs + [rc]) == if rc > 0 then 0 else TrailingFailures(rcs) + 1
    ensures CountSuccesses(rcs + [rc]) == CountSuccesses(rcs) + if rc > 0 then 1 else 0
    ensures forall i :: 0 <= i <= |rcs| ==> (rcs + [rc])[..i] == rcs[..i]
  {
  }

  /** The counters of the loop after these reads. */
  predicate Counted(rcs: seq<int>, handled: nat, waitCount: nat, pcount: nat) {
    && waitCount == TrailingFailures(rcs)
    && pcount == handled == CountSuccesses(rcs)
    && forall i :: 0 <= i < |rcs| ==> TrailingFailures(rcs[..i]) < MAX_WAITS
  }

  lemma CountedStep(rcs: seq<int>, handled: nat, waitCount: nat, pcount: nat, rc: int)
    requires Counted(rcs, handled, waitCount, pcount) && waitCount < MAX_WAITS
    ensures if rc > 0 then Counted(rcs + [rc], handled + 1, 0, pcount + 1)
            else Counted(rcs + [rc], handled, waitCount + 1, pcount)
  {
    CountRead(rcs, rc);
    assert rcs == rcs[..|rcs|];
  }

  /** The loop of `portServer`. */
  method ServerLoop(k: Kernel, dc: ADSConnection) returns (rcs: seq<int>, handled: seq<seq<byte>>, pcount: nat)
    requires Usable(k, dc) && dc.iface.error == 0 && dc.iface.timeout == SERVER_TIMEOUT
    requires AllAnswerable(Serve(k.sockets[dc.iface.sd], dc.msgIn[..], dc.msgOut[..], 0).handled)
    modifies k`sockets, k`clock, dc`AnswLen, dc.msgIn, dc.msgOut
    ensures var run := Serve(old(k.sockets)[dc.iface.sd], old(dc.msgIn[..]), old(dc.msgOut[..]), 0);
      && rcs == run.rcs && handled == run.handled
      && k.sockets == old(k.sockets)[dc.iface.sd := run.socket]
    ensures pcount == |handled| == CountSuccesses(rcs)
    ensures TrailingFailures(rcs) == 1000
    ensures forall i :: 0 <= i < |rcs| ==> TrailingFailures(rcs[..i]) < 1000
  {
    var fd := dc.iface.sd;
    rcs, handled, pcount := [], [], 0;
    var waitCount := 0;
    ghost var run := Serve(k.sockets[fd], dc.msgIn[..], dc.msgOut[..], 0);
    ghost var rest := run;
    ContinuesStart(run);
    while waitCount < MAX_WAITS
      invariant k.sockets.Keys == old(k.sockets.Keys)
      invariant k.sockets == old(k.sockets)[fd := k.sockets[fd]]
      invariant 0 <= waitCount <= MAX_WAITS && Counted(rcs, |handled|, waitCount, pcount)
      invariant rest == Serve(k.sockets[fd], dc.msgIn[..], dc.msgOut[..], waitCount)
      invariant Continues(run, rcs, handled, rest)
      decreases |k.sockets[fd].input|, MAX_WAITS - waitCount
    {
      ghost var s, m, out := AfterRoundIs(k.sockets[fd], dc.msgIn[..], dc.msgOut[..], run, rcs, handled, waitCount);
      var rc := Round(k, dc);
      rest := Serve(s, m, out, if rc > 0 then 0 else waitCount + 1);
      CountedStep(rcs, |handled|, waitCount, pcount, rc);
      rcs := rcs + [rc];
      if rc > 0 {
        waitCount := 0;
        handled := handled + [dc.msgIn[..]];
        pcount := pcount + 1;
      } else {
        waitCount := waitCount + 1;
      }
    }
    ContinuesEnd(run, rcs, handled, rest);
  }

  /** `portServer`: `rcs` are the results of its reads, `handled` the packets it gave to `ranalyze`. */
  method PortServer(k: Kernel, fd: int, me: NetId, partner: NetId)
    returns (rcs: seq<int>, handled: seq<seq<byte>>, pcount: nat)
    requires fd in k.sockets
    requires AllAnswerable(Serve(k.sockets[fd], Zeros(MAXDATALEN), Zeros(MAXDATALEN), 0).handled)
    modifies k`sockets, k`clock
    ensures var run := Serve(old(k.sockets)[fd], Zeros(MAXDATALEN), Zeros(MAXDATALEN), 0);
      && rcs == run.rcs && handled == run.handled
      && k.sockets == old(k.sockets)[fd := run.socket]
    ensures pcount == |handled| == CountSuccesses(rcs)
    ensures TrailingFailures(rcs) == 1000
    ensures forall i :: 0 <= i < |rcs| ==> TrailingFailures(rcs[..i]) < 1000
  {
    var di := new ADSInterface(fd, me, AMSPORT_R0_PLC_RTS1);
    di.timeout := SERVER_TIMEOUT;
    var dc := new ADSConnection(di, partner, AMSPORT_R0_PLC_RTS1);
    rcs, handled, pcount := ServerLoop(k, dc);
  }
}
