/** Requests of src/ads.c answered by `ranalyze` of examples/ADSserver.c. */
module EndToEnd {
  import opened Bytes
  import opened AdsH
  import opened Kernel
  import opened AdsIo
  import opened Requests
  import opened Ads
  import opened AdsServer
  import opened Framing

  /** Requests whose reply lies inside the 500 cleared bytes. */
  predicate Servable(r: Request) {
    && Fits(r)
    && (r.ReadData? ==> r.offset == 0 && r.length <= 454)
    && (r.ReadWrite? ==> r.length <= 454)
  }

  /** The data a read of `n` bytes delivers: the invokeId, `dummyRes`, zeros. */
  function ReadPayload(id: u32, n: nat): (d: seq<byte>)
    requires n <= 454
    ensures |d| == n
  {
    (Le32(id) + DummyRes() + Zeros(98))[..n]
  }

  /** The data part of the reply to a servable request. */
  function ReplyBody(id: u32, r: Request): (b: seq<byte>)
    requires Servable(r)
    ensures 4 <= |b| <= 462
  {
    match r
    case ReadDevInfo => Le32(0) + [185, 0] + Le16(0) + PLC_COUPLER + Zeros(13)
    case ReadState => Le32(0) + Le16(5) + Le16(0xA)
    case ReadData(_, _, n) => Le32(0) + Le32(n) + ReadPayload(id, n)
    case ReadWrite(_, _, n, _) => Le32(0) + Le32(n) + (Le32(id) + Zeros(450))[..n]
    case WriteData(_, _, _) => Le32(0)
    case WriteControl(_, _, _) => Le32(0)
  }

  /** The reply to a servable request, whatever the buffers of the server held before. */
  function Reply(p: Party, id: u32, r: Request): (f: seq<byte>)
    requires Servable(r)
    ensures |f| == DATA + |ReplyBody(id, r)|
  {
    var b := ReplyBody(id, r);
    HeaderBytes(AMS_HEADER + |b|, ReplyHeader(RequestHeader(p, id, Command(r), 0), |b|)) + b
  }

  /** The words of a servable request that the server looks at. */
  lemma RequestSeen(p: Party, id: u32, r: Request, m: seq<byte>)
    requires Servable(r) && |m| == MAXDATALEN && RequestFrame(p, id, r) <= m
    ensures HeaderView(m) == RequestHeader(p, id, Command(r), DataLength(r))
    ensures CommandIn(m) == Command(r) && InvokeIn(m) == id && Answerable(m)
    ensures r.ReadData? || r.ReadWrite? ==> Get32(m, 46) == r.length
    ensures ReplyLength(m) == |ReplyBody(id, r)|
  {
    RequestRoundTrip(p, id, r, m);
    assert HeaderView(m).commandId == Command(r) && HeaderView(m).invokeId == id;
  }

  /** What the reply body is: the stored bytes, then the cleared buffer. */
  lemma BodyIsStored(id: u32, r: Request, m: seq<byte>, i: nat)
    requires Servable(r) && |m| == MAXDATALEN && CommandIn(m) == Command(r) && InvokeIn(m) == id
    requires r.ReadData? || r.ReadWrite? ==> Get32(m, 46) == r.length
    requires i < |ReplyBody(id, r)|
    ensures ReplyBody(id, r)[i] == if i < |ReplyStored(m)| then ReplyStored(m)[i] else 0
  {
    var s, b := ReplyStored(m), ReplyBody(id, r);
    match r {
      case ReadData(_, _, n) =>
        var d := Le32(id) + DummyRes() + Zeros(98);
        assert s == Le32(0) + Le32(n) + (Le32(id) + DummyRes());
        assert 8 <= i ==> b[i] == ReadPayload(id, n)[i - 8] == d[i - 8];
      case ReadWrite(_, _, n, _) =>
        var d := Le32(id) + Zeros(450);
        assert 8 <= i ==> b[i] == d[..n][i - 8] == d[i - 8];
      case ReadDevInfo =>
        assert b == s + Zeros(13);
      case _ =>
    }
  }

  /** The reply sent for a servable request depends on the request alone. */
  lemma ReplyIs(p: Party, id: u32, r: Request, m: seq<byte>, out: seq<byte>)
    requires Servable(r) && |m| == MAXDATALEN == |out| && RequestFrame(p, id, r) <= m
    ensures Answerable(m) && ReplyFrame(m, out) == Reply(p, id, r)
  {
    RequestSeen(p, id, r, m);
    var b := ReplyBody(id, r);
    var h := HeaderBytes(AMS_HEADER + |b|, ReplyHeader(RequestHeader(p, id, Command(r), 0), |b|));
    assert ReplyHeader(HeaderView(m), |b|) == ReplyHeader(RequestHeader(p, id, Command(r), 0), |b|);
    forall i | 0 <= i < |b|
      ensures b[i] == if i < |ReplyStored(m)| then ReplyStored(m)[i] else 0
    {
      BodyIsStored(id, r, m, i);
    }
    StoredIs(Cleared(out), ReplyStored(m), h, b);
  }

  /** Storing a data part and a header into cleared bytes. */
  lemma StoredIs(z: seq<byte>, s: seq<byte>, h: seq<byte>, b: seq<byte>)
    requires |z| == MAXDATALEN && (forall i :: 0 <= i < CLEARED ==> z[i] == 0)
    requires |h| == DATA && DATA + |s| <= |z| && DATA + |b| <= CLEARED
    requires forall i :: 0 <= i < |b| ==> b[i] == if i < |s| then s[i] else 0
    ensures Put(Put(z, DATA, s), 0, h)[..DATA + |b|] == h + b
  {
    ImagePrefix(Put(Put(z, DATA, s), 0, h), h, b);
  }

  lemma ImagePrefix(m: seq<byte>, h: seq<byte>, b: seq<byte>)
    requires |h| + |b| <= |m|
    requires forall i :: 0 <= i < |h| ==> m[i] == h[i]
    requires forall i :: |h| <= i < |h| + |b| ==> m[i] == b[i - |h|]
    ensures m[..|h| + |b|] == h + b
  {
  }

  /** A reply is one complete packet, small enough for the buffer, and names its request. */
  lemma ReplyIsFrame(p: Party, id: u32, r: Request)
    requires Servable(r)
    ensures var f := Reply(p, id, r);
      && IsFrame(f) && |f| <= CLEARED
      && HeaderView(f) == ReplyHeader(RequestHeader(p, id, Command(r), 0), |ReplyBody(id, r)|)
      && f[DATA..] == ReplyBody(id, r)
  {
    var b := ReplyBody(id, r);
    HeaderThen(AMS_HEADER + |b|, ReplyHeader(RequestHeader(p, id, Command(r), 0), |b|), b, Reply(p, id, r));
  }

  /** What the client's packed view shows once a reply is in `msgIn`. */
  lemma ReplySeen(p: Party, id: u32, r: Request, m: seq<byte>)
    requires Servable(r) && |m| == MAXDATALEN && Reply(p, id, r) <= m
    ensures CommandIn(m) == Command(r) && ErrorIn(m) == 0 && InvokeIn(m) == id && ResultIn(m) == 0
    ensures m[DATA..DATA + |ReplyBody(id, r)|] == ReplyBody(id, r)
  {
    var b := ReplyBody(id, r);
    var h := ReplyHeader(RequestHeader(p, id, Command(r), 0), |b|);
    HeaderThen(AMS_HEADER + |b|, h, b, m);
    assert HeaderView(m).commandId == Command(r) && HeaderView(m).errorCode == 0 && HeaderView(m).invokeId == id;
    assert m[38..42] == m[DATA..DATA + |b|][..4] == b[..4] == Le32(0);
    Le32Get32(m, 38, 0);
  }

  /** The length and the data that follow the result in a read or read-write reply. */
  lemma SizedReplySeen(n: u32, d: seq<byte>, m: seq<byte>)
    requires |m| == MAXDATALEN && |d| == n <= 454
    requires m[DATA..46 + n] == Le32(0) + Le32(n) + d
    ensures LengthIn(m) == n && m[46..46 + n] == d
  {
  }

  /** The bytes of that data, one by one. */
  lemma PayloadBytes(id: u32, n: nat, i: nat)
    requires i < n <= 454
    ensures ReadPayload(id, n)[i] == if i < 4 then Le32(id)[i] else if i < 356 then (i - 4) % 16 + 1 else 0
  {
    var d := Le32(id) + DummyRes() + Zeros(98);
    assert ReadPayload(id, n)[i] == d[i];
  }

  lemma ReadDelivers(p: Party, id: u32, g: u32, n: u32, before: seq<byte>, out: seq<byte>, mine: seq<byte>)
    returns (q: seq<byte>, f: seq<byte>)
    requires n <= 454 && |before| == |out| == |mine| == MAXDATALEN
    ensures q == Received(before, RequestFrame(p, id, ReadData(g, 0, n))) && |q| == MAXDATALEN && Answerable(q)
    ensures f == ReplyFrame(q, out) && |f| == 46 + n
    ensures DecodeRead(46 + n, 0, Received(mine, f), n, true) == ReadOutcome(0, n, Some(n), Copy(ReadPayload(id, n)))
    ensures InvokeIn(Received(mine, f)) == id
  {
    var r := ReadData(g, 0, n);
    q := Received(before, RequestFrame(p, id, r));
    ReplyIs(p, id, r, q, out);
    f := ReplyFrame(q, out);
    DecodesRead(p, id, g, n, Received(mine, f), n);
  }

  /**
    A read of `n` bytes at offset 0, encoded by the client, received by the
    server, answered, received by the client and decoded, returns 0, reports `n`
    bytes and delivers the invokeId, 352 bytes that count from 1 to 16 over and
    over, and zeros, for every index group and whatever the two servers' and the
    client's buffers held before.
   */
  lemma ReadEndToEnd(p: Party, id: u32, g: u32, n: u32, before: seq<byte>, out: seq<byte>, mine: seq<byte>)
    requires n <= 454 && |before| == |out| == |mine| == MAXDATALEN
    ensures var q := Received(before, RequestFrame(p, id, ReadData(g, 0, n)));
      && Answerable(q)
      && var f := ReplyFrame(q, out);
      && |f| == 46 + n && InvokeIn(Received(mine, f)) == id
      && var o := DecodeRead(46 + n, 0, Received(mine, f), n, true);
      && o.ret == 0 && o.answLen == n && o.nRead == Some(n) && o.copied.Copy? && |o.copied.bytes| == n
      && forall i :: 0 <= i < n ==>
           o.copied.bytes[i] == if i < 4 then Le32(id)[i] else if i < 356 then (i - 4) % 16 + 1 else 0
  {
    var q, f := ReadDelivers(p, id, g, n, before, out, mine);
    forall i | 0 <= i < n
      ensures ReadPayload(id, n)[i] == if i < 4 then Le32(id)[i] else if i < 356 then (i - 4) % 16 + 1 else 0
    {
      PayloadBytes(id, n, i);
    }
  }

  /** The server's side of one exchange: a request that comes in time is read and its reply is sent. */
  lemma ServedOverTheWire(p: Party, id: u32, r: Request, v: Socket, before: seq<byte>, out: seq<byte>)
    requires Servable(r) && v.sends == [] && |before| == |out| == MAXDATALEN
    requires var f := RequestFrame(p, id, r);
      StreamBytes(v.input) == f && Arrives(v.input, BudgetOf(SERVER_TIMEOUT), |f|)
    ensures var x := Read(v.input, SERVER_TIMEOUT, before);
      && x.rc > 0 && Answerable(x.image)
      && AfterRound(v, before, out).0.sent == v.sent + Reply(p, id, r)
  {
    var f := RequestFrame(p, id, r);
    FrameEquation(p, id, r);
    BodySize(r);
    ReadWhole(v.input, SERVER_TIMEOUT, before, f);
    ReplyIs(p, id, r, Read(v.input, SERVER_TIMEOUT, before).image, out);
  }

  /** A packet that comes in time and fits the buffer is read as it is. */
  lemma {:induction false} ReadWhole(input: seq<Event>, timeout: int, image: seq<byte>, f: seq<byte>)
    requires |image| == MAXDATALEN && IsFrame(f) && |f| <= MAXDATALEN
    requires StreamBytes(input) == f && Arrives(input, BudgetOf(timeout), |f|)
    ensures var x := Read(input, timeout, image);
      x.rc == |f| && x.error == 0 && f <= x.image
  {
    SucceedsIff(input, timeout, image, f);
    assert f + [] == f;
    ReadFramed(input, timeout, image, f, []);
    assert Read(input, timeout, image).image[..|f|] == f;
  }

  /** What each of the six calls returns and delivers when `rc` bytes of reply to its request are in its buffer. */
  predicate Answers(id: u32, r: Request, rc: int, m: seq<byte>)
    requires Servable(r) && |m| == MAXDATALEN
  {
    match r
    case ReadDevInfo => DecodeDevInfo(rc, 0, m) == InfoOutcome(0, Some(DeviceInfo(185, 0, 0, PLC_COUPLER + Zeros(5))))
    case ReadData(_, _, n) => DecodeRead(rc, 0, m, n, true) == ReadOutcome(0, n, Some(n), Copy(ReadPayload(id, n)))
    case WriteData(_, _, _) => DecodeWrite(rc, 0, m) == 0
    case ReadState => DecodeState(rc, 0, m) == StateOutcome(0, Some((5, 0xA)))
    case WriteControl(_, _, _) => DecodeControl(rc, 0, m) == 0
    case ReadWrite(_, _, n, _) =>
      DecodeReadWrite(rc, 0, m, n) == ReadOutcome(0, rc, Some(n), Copy((Le32(id) + Zeros(450))[..n]))
  }

  lemma ReplyAnswers(p: Party, id: u32, r: Request, m: seq<byte>)
    requires Servable(r) && |m| == MAXDATALEN && Reply(p, id, r) <= m
    ensures InvokeIn(m) == id && Answers(id, r, |Reply(p, id, r)|, m)
  {
    ReplySeen(p, id, r, m);
    if r.ReadData? {
      ReadAnswers(p, id, r, m);
    } else {
      OthersEndToEnd(p, id, r, m, if r.ReadWrite? then r.length else 0);
    }
  }

  lemma ReadAnswers(p: Party, id: u32, r: Request, m: seq<byte>)
    requires Servable(r) && r.ReadData? && |m| == MAXDATALEN && Reply(p, id, r) <= m
    ensures Answers(id, r, |Reply(p, id, r)|, m)
  {
    assert r == ReadData(r.group, 0, r.length);
    DecodesRead(p, id, r.group, r.length, m, r.length);
  }

  /**
    The same for all six calls and across the two sockets: what the client's call
    puts on the wire makes the server's round send a reply, and that reply makes
    the call return 0 and deliver its data, when both packets come in time.
   */
  lemma CallsOverTheWire(p: Party, id: u32, r: Request, c: Socket, timeout: int, mine: seq<byte>,
                         v: Socket, before: seq<byte>, out: seq<byte>)
    requires Servable(r) && c.sends == v.sends == [] && |mine| == |before| == |out| == MAXDATALEN
    requires var f := RequestFrame(p, id, r);
      StreamBytes(v.input) == f && Arrives(v.input, BudgetOf(SERVER_TIMEOUT), |f|)
    requires var f := Reply(p, id, r); StreamBytes(c.input) == f && Arrives(c.input, BudgetOf(timeout), |f|)
    ensures var s := Read(v.input, SERVER_TIMEOUT, before);
      && (s.rc > 0 ==> Answerable(s.image))
      && AfterRound(v, before, out).0.sent == v.sent + StreamBytes(c.input)
    ensures var x := Exchange(0, c, timeout, RequestFrame(p, id, r), mine);
      && x.sent && x.socket.sent == c.sent + StreamBytes(v.input) && x.error == 0
      && InvokeIn(x.image) == id && Answers(id, r, x.rc, x.image)
  {
    ServedOverTheWire(p, id, r, v, before, out);
    ReplyIsFrame(p, id, r);
    ReadWhole(c.input, timeout, mine, Reply(p, id, r));
    ReplyAnswers(p, id, r, Read(c.input, timeout, mine).image);
  }

  /** The reply to a read decodes the same way in answer to any read that asks for at least as much. */
  lemma DecodesRead(p: Party, id: u32, g: u32, n: u32, m: seq<byte>, length: u32)
    requires n <= 454 && n <= length && |m| == MAXDATALEN && Reply(p, id, ReadData(g, 0, n)) <= m
    ensures DecodeRead(46 + n, 0, m, length, true) == ReadOutcome(0, n, Some(n), Copy(ReadPayload(id, n)))
    ensures InvokeIn(m) == id
  {
    ReplySeen(p, id, ReadData(g, 0, n), m);
    SizedReplySeen(n, ReadPayload(id, n), m);
  }

  /** The same for the other five calls. */
  lemma OthersEndToEnd(p: Party, id: u32, r: Request, m: seq<byte>, length: u32)
    requires Servable(r) && |m| == MAXDATALEN && Reply(p, id, r) <= m
    ensures var rc := |Reply(p, id, r)|;
      && (r.WriteData? ==> DecodeWrite(rc, 0, m) == 0)
      && (r.WriteControl? ==> DecodeControl(rc, 0, m) == 0)
      && (r.ReadState? ==> DecodeState(rc, 0, m) == StateOutcome(0, Some((5, 0xA))))
      && (r.ReadDevInfo? ==>
            DecodeDevInfo(rc, 0, m) == InfoOutcome(0, Some(DeviceInfo(185, 0, 0, PLC_COUPLER + Zeros(5)))))
      && (r.ReadWrite? && r.length <= length ==>
            var d := (Le32(id) + Zeros(450))[..r.length];
            DecodeReadWrite(rc, 0, m, length) == ReadOutcome(0, rc, Some(r.length), Copy(d)))
  {
    ReplySeen(p, id, r, m);
    match r {
      case ReadWrite(_, _, n, _) => SizedReplySeen(n, (Le32(id) + Zeros(450))[..n], m);
      case ReadState => StateSeen(m);
      case ReadDevInfo => InfoSeen(m);
      case _ =>
    }
  }

  lemma StateSeen(m: seq<byte>)
    requires |m| == MAXDATALEN && m[DATA..46] == Le32(0) + Le16(5) + Le16(0xA)
    ensures Get16(m, 42) == 5 && Get16(m, 44) == 0xA
  {
  }

  lemma InfoSeen(m: seq<byte>)
    requires |m| == MAXDATALEN && m[DATA..70] == Le32(0) + [185, 0] + Le16(0) + PLC_COUPLER + Zeros(13)
    ensures m[42] == 185 && m[43] == 0 && Get16(m, 44) == 0 && m[46..62] == PLC_COUPLER + Zeros(5)
  {
    var s := Le32(0) + [185, 0] + Le16(0) + PLC_COUPLER + Zeros(13);
    assert forall i :: DATA <= i < 70 ==> m[i] == m[DATA..70][i - DATA] == s[i - DATA];
    assert m[44..46] == s[6..8] == Le16(0);
    Le16Get16(m, 44, 0);
    assert m[46..62] == s[8..24] == PLC_COUPLER + Zeros(5);
  }
}
