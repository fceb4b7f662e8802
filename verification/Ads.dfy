/** The client transactions of src/ads.c. */
module Ads {
  import opened Bytes
  import opened AdsH
  import opened Kernel
  import opened AdsIo
  import opened Requests

  // ---------------------------------------------------------------- error codes

  function TranslateWrError(rc: int): int {
    match rc
    case 0 => 0x1a
    case -3 => 0x1
    case -4 => 0x1
    case _ => 0
  }

  function TranslateRdError(rc: int): int {
    match rc
    case 0 => 0x1a
    case -1 => 0x15
    case -2 => 0x50a
    case -3 => 0x1
    case -4 => 0x1
    case _ => 0
  }

  // ---------------------------------------------------------------- decoding replies

  /**
    What `memcpy` out of `msgIn` delivers: nothing when it is not reached, the bytes,
    or a copy that runs past the end of the buffer.
   */
  datatype Copied = NoCopy | Copy(bytes: seq<byte>) | PastEnd(count: nat)

  function CopyOut(m: seq<byte>, at: nat, n: nat): Copied {
    if at + n <= |m| then Copy(m[at..at + n]) else PastEnd(n)
  }

  function CommandIn(m: seq<byte>): u16 requires |m| == MAXDATALEN { Get16(m, 22) }
  function ErrorIn(m: seq<byte>): u32 requires |m| == MAXDATALEN { Get32(m, 30) }
  function InvokeIn(m: seq<byte>): u32 requires |m| == MAXDATALEN { Get32(m, 34) }
  function ResultIn(m: seq<byte>): u32 requires |m| == MAXDATALEN { Get32(m, 38) }
  function LengthIn(m: seq<byte>): u32 requires |m| == MAXDATALEN { Get32(m, 42) }

  /** `nRead` is what is stored through `pnRead`; `ret` is converted from unsigned to int. */
  datatype ReadOutcome = ReadOutcome(ret: int, answLen: int, nRead: Option<u32>, copied: Copied)

  /** `ADSreadBytes` after the packet read returned `rc` and `error`. */
  function DecodeRead(rc: int, error: int, m: seq<byte>, length: u32, hasBuffer: bool): ReadOutcome
    requires |m| == MAXDATALEN
  {
    if rc > 0 && error == 0 then
      if CommandIn(m) == CMD_READ then
        var n := LengthIn(m);
        if hasBuffer && n > length then ReadOutcome(0x705, ToInt32(n), None, NoCopy)
        else ReadOutcome(ToInt32(ResultIn(m)), ToInt32(n), Some(n), if hasBuffer then CopyOut(m, 46, n) else NoCopy)
      else ReadOutcome(ToInt32(ErrorIn(m)), rc, None, NoCopy)
    else ReadOutcome(TranslateRdError(rc), rc, None, NoCopy)
  }

  /** `ADSreadWriteBytes`: the size is checked for every buffer. */
  function DecodeReadWrite(rc: int, error: int, m: seq<byte>, length: u32): ReadOutcome
    requires |m| == MAXDATALEN
  {
    if rc > 0 && error == 0 then
      if CommandIn(m) == CMD_READ_WRITE then
        var n := LengthIn(m);
        if n > length then ReadOutcome(0x705, rc, None, NoCopy)
        else ReadOutcome(ToInt32(ResultIn(m)), rc, Some(n), CopyOut(m, 46, n))
      else ReadOutcome(ToInt32(ErrorIn(m)), rc, None, NoCopy)
    else ReadOutcome(TranslateRdError(rc), rc, None, NoCopy)
  }

  datatype StateOutcome = StateOutcome(ret: int, states: Option<(u16, u16)>)

  /** `ADSreadState`. */
  function DecodeState(rc: int, error: int, m: seq<byte>): StateOutcome
    requires |m| == MAXDATALEN
  {
    if rc > 0 && error == 0 then
      if CommandIn(m) == CMD_READ_STATE then
        StateOutcome(ToInt32(ResultIn(m)), Some((Get16(m, 42), Get16(m, 44))))
      else StateOutcome(ToInt32(ErrorIn(m)), None)
    else StateOutcome(TranslateRdError(rc), None)
  }

  datatype DeviceInfo = DeviceInfo(version: byte, revision: byte, build: u16, name: seq<byte>)
  datatype InfoOutcome = InfoOutcome(ret: int, info: Option<DeviceInfo>)

  /** `ADSreadDeviceInfo`: 16 of the 24 name bytes are copied. */
  function DecodeDevInfo(rc: int, error: int, m: seq<byte>): InfoOutcome
    requires |m| == MAXDATALEN
  {
    if rc > 0 && error == 0 then
      if CommandIn(m) == CMD_READ_DEV_INFO then
        InfoOutcome(ToInt32(ResultIn(m)), Some(DeviceInfo(m[42], m[43], Get16(m, 44), m[46..62])))
      else InfoOutcome(ToInt32(ErrorIn(m)), None)
    else InfoOutcome(TranslateRdError(rc), None)
  }

  /** `ADSwriteBytes`: the comparison is made in `size_t`. */
  function DecodeWrite(rc: int, error: int, m: seq<byte>): int
    requires |m| == MAXDATALEN
  {
    if ToSizeT(rc) >= TCP_HEADER + AMS_HEADER then
      if error == 0 then ToInt32(ResultIn(m)) else ToInt32(ErrorIn(m))
    else TranslateRdError(rc)
  }

  /** `ADSwriteControl`. */
  function DecodeControl(rc: int, error: int, m: seq<byte>): int
    requires |m| == MAXDATALEN
  {
    if rc > 0 && error == 0 then ToInt32(ResultIn(m)) else ToInt32(ErrorIn(m))
  }

  // ---------------------------------------------------------------- one exchange

  /** A packet written and, if that succeeded, a packet read. */
  datatype Exchanged = Exchanged(sent: bool, rc: int, error: int, image: seq<byte>, socket: Socket, elapsed: nat)

  ghost function Exchange(flag: int, s: Socket, timeout: int, frame: seq<byte>, image: seq<byte>): (x: Exchanged)
    requires |image| == MAXDATALEN
    ensures |x.image| == MAXDATALEN
  {
    var w := Write(flag, s, frame);
    if w.rc <= 0 then Exchanged(false, w.rc, w.error, image, w.socket, 0)
    else
      var r := ReadIface(flag, w.socket.input, timeout, image);
      Exchanged(true, r.rc, r.error, r.image, w.socket.(input := r.input), r.elapsed)
  }

  function PartyOf(dc: ADSConnection): Party {
    Party(dc.partner, ToU16(dc.AMSport), dc.iface.me, ToU16(dc.iface.AMSport))
  }

  /** The connection can be used: its buffers are its own and its descriptor is open. */
  ghost predicate Usable(k: Kernel, dc: ADSConnection)
    reads k, dc.iface
  {
    dc.Valid() && dc.iface.sd in k.sockets
  }

  /** The exchange that a call on this connection makes for this request. */
  twostate function Traffic(k: Kernel, dc: ADSConnection, r: Request): (x: Exchanged)
    requires old(Usable(k, dc))
    reads {}
    ensures |x.image| == MAXDATALEN
  {
    Exchange(old(dc.iface.error), old(k.sockets)[old(dc.iface.sd)], old(dc.iface.timeout),
             RequestFrame(PartyOf(dc), ToU32(old(dc.invokeId) + 1), r), old(dc.msgIn[..]))
  }

  /**
    The effect of a call that makes the exchange for `r` on what matters to later
    calls: the invokeId is the next one, `msgIn` holds what was read, and the
    exchange is all that happened on the socket.
   */
  twostate predicate Transacted(k: Kernel, dc: ADSConnection, r: Request)
    requires old(Usable(k, dc))
    reads k, dc, dc.iface, dc.msgIn
  {
    var x := Traffic(k, dc, r);
    && dc.invokeId == old(dc.invokeId) + 1
    && dc.msgIn[..] == x.image
    && k.sockets == old(k.sockets)[dc.iface.sd := x.socket]
    && k.clock == old(k.clock) + x.elapsed
  }

  /** All of its effect: `msgOut` holds the packet and `extra` behind it. */
  twostate predicate Called(k: Kernel, dc: ADSConnection, r: Request, extra: seq<byte>)
    requires old(Usable(k, dc))
    reads k, dc, dc.iface, dc.msgIn, dc.msgOut
  {
    var frame := RequestFrame(PartyOf(dc), ToU32(old(dc.invokeId) + 1), r);
    && Transacted(k, dc, r)
    && |frame + extra| <= MAXDATALEN
    && dc.msgOut[..] == Put(old(dc.msgOut[..]), 0, frame + extra)
  }

  // ---------------------------------------------------------------- building requests

  /** The header view that the stores of a request leave determines the first 38 bytes. */
  lemma HeaderStored(before: seq<byte>, after: seq<byte>, length: u32, h: AmsHeader)
    requires |before| == |after| && |after| >= DATA
    requires HeaderView(after) == h && PacketLength(after) == length && Get16(after, 0) == 0
    requires forall i :: DATA <= i < |after| ==> after[i] == before[i]
    ensures after == Put(before, 0, HeaderBytes(length, h))
  {
    HeaderDetermined(after);
    assert forall i :: 0 <= i < DATA ==> after[i] == after[..DATA][i];
  }

  lemma PutAdjacent(s: seq<byte>, at: nat, a: seq<byte>, b: seq<byte>)
    requires at + |a| + |b| <= |s|
    ensures Put(Put(s, at, a), at + |a|, b) == Put(s, at, a + b)
  {
  }

  /** A buffer in which both headers of a request were stored. */
  function Opened(before: seq<byte>, p: Party, id: u32, command: u16, dataLength: u32): (m: seq<byte>)
    requires |before| >= DATA
    ensures |m| == |before|
  {
    Put(before, 0, HeaderBytes(ToU32(AMS_HEADER + dataLength), RequestHeader(p, id, command, dataLength)))
  }

  /** `_ADSsetupAmsHeader`. */
  method SetupAmsHeader(dc: ADSConnection)
    requires dc.Valid()
    modifies dc`invokeId, dc.msgOut
    ensures dc.invokeId == old(dc.invokeId) + 1
    ensures var m := dc.msgOut[..];
      && m[6..12] == dc.partner && Get16(m, 12) == dc.AMSport % 65536
      && m[14..20] == dc.iface.me && Get16(m, 20) == dc.iface.AMSport % 65536
      && Get16(m, 24) == 4 && Get32(m, 30) == 0 && Get32(m, 34) == ToU32(old(dc.invokeId) + 1)
      && forall i :: (0 <= i < 6 || 22 <= i < 24 || 26 <= i < 30 || DATA <= i < MAXDATALEN) ==>
             m[i] == old(dc.msgOut[i])
  {
    ghost var p := PartyOf(dc);
    ConversionsAreModular(dc.AMSport);
    ConversionsAreModular(dc.iface.AMSport);
    Store(dc.msgOut, 6, dc.partner);
    Store(dc.msgOut, 12, Le16(ToU16(dc.AMSport)));
    Store(dc.msgOut, 14, dc.iface.me);
    Store(dc.msgOut, 20, Le16(ToU16(dc.iface.AMSport)));
    Store(dc.msgOut, 24, Le16(4));
    Store(dc.msgOut, 30, Le32(0));
    dc.invokeId := dc.invokeId + 1;
    Store(dc.msgOut, 34, Le32(ToU32(dc.invokeId)));
    ghost var m := dc.msgOut[..];
    assert m[6..12] == p.target;
    assert m[14..20] == p.source;
    Le16Get16(m, 12, p.targetPort);
    assert m[12..14] == Le16(p.targetPort);
    Le16Get16(m, 20, p.sourcePort);
    assert m[20..22] == Le16(p.sourcePort);
    Le16Get16(m, 24, 4);
    assert m[24..26] == Le16(4);
    Le32Get32(m, 30, 0);
    assert m[30..34] == Le32(0);
    Le32Get32(m, 34, ToU32(dc.invokeId));
    assert m[34..38] == Le32(ToU32(dc.invokeId));
  }

  /** The four stores that complete the header. */
  function WithCommand(m: seq<byte>, command: u16, dataLength: u32): (r: seq<byte>)
    requires |m| >= DATA
    ensures |r| == |m|
  {
    Put(Put(Put(Put(m, 22, Le16(command)), 26, Le32(dataLength)), 2, Le32(ToU32(AMS_HEADER + dataLength))), 0, Le16(0))
  }

  lemma CommandStored(m0: seq<byte>, command: u16, dataLength: u32)
    requires |m0| >= DATA
    ensures var m := WithCommand(m0, command, dataLength);
      && m[6..12] == m0[6..12] && m[14..20] == m0[14..20]
      && Get16(m, 12) == Get16(m0, 12) && Get16(m, 20) == Get16(m0, 20)
      && Get16(m, 24) == Get16(m0, 24) && Get32(m, 30) == Get32(m0, 30) && Get32(m, 34) == Get32(m0, 34)
      && Get16(m, 22) == command && Get32(m, 26) == dataLength
      && PacketLength(m) == ToU32(AMS_HEADER + dataLength) && Get16(m, 0) == 0
      && forall i :: DATA <= i < |m| ==> m[i] == m0[i]
  {
    var m := WithCommand(m0, command, dataLength);
    Le16Get16(m, 22, command);
    assert m[22..24] == Le16(command);
    Le32Get32(m, 26, dataLength);
    assert m[26..30] == Le32(dataLength);
    Le32Get32(m, 2, ToU32(AMS_HEADER + dataLength));
    assert m[2..6] == Le32(ToU32(AMS_HEADER + dataLength));
  }

  /** The opening of each of the six calls: both headers of the request. */
  method BeginRequest(dc: ADSConnection, command: u16, dataLength: u32)
    requires dc.Valid()
    modifies dc`invokeId, dc.msgOut
    ensures dc.invokeId == old(dc.invokeId) + 1
    ensures dc.msgOut[..] == Opened(old(dc.msgOut[..]), PartyOf(dc), ToU32(dc.invokeId), command, dataLength)
  {
    SetupAmsHeader(dc);
    ConversionsAreModular(dc.AMSport);
    ConversionsAreModular(dc.iface.AMSport);
    CommandStored(dc.msgOut[..], command, dataLength);
    Store(dc.msgOut, 22, Le16(command));
    Store(dc.msgOut, 26, Le32(dataLength));
    Store(dc.msgOut, 2, Le32(ToU32(AMS_HEADER + dataLength)));
    Store(dc.msgOut, 0, Le16(0));
    HeaderStored(old(dc.msgOut[..]), dc.msgOut[..], ToU32(AMS_HEADER + dataLength),
                 RequestHeader(PartyOf(dc), ToU32(dc.invokeId), command, dataLength));
  }

  /** `msgOut` holds the next request of this connection, and `extra` behind it. */
  twostate predicate Built(dc: ADSConnection, r: Request, extra: seq<byte>)
    requires dc.Valid()
    reads dc, dc.iface, dc.msgOut
  {
    var frame := RequestFrame(PartyOf(dc), ToU32(dc.invokeId), r);
    && Fits(r) && |frame + extra| <= MAXDATALEN
    && dc.invokeId == old(dc.invokeId) + 1
    && dc.msgOut[..] == Put(old(dc.msgOut[..]), 0, frame + extra)
  }

  /** Storing the data part completes a packet whose header is in place. */
  lemma FrameStored(before: seq<byte>, p: Party, id: u32, command: u16, body: seq<byte>)
    requires |before| == MAXDATALEN && DATA + |body| <= MAXDATALEN
    ensures Put(Opened(before, p, id, command, |body|), DATA, body)
      == Put(before, 0, FrameOf(p, id, command, |body|, body) + [])
  {
  }

  /** Three words and what follows them, stored one by one. */
  lemma WordsStored(m: seq<byte>, a: seq<byte>, b: seq<byte>, c: seq<byte>, d: seq<byte>)
    requires |a| == |b| == |c| == 4 && 50 + |d| <= |m|
    ensures Put(Put(Put(Put(m, 38, a), 42, b), 46, c), 50, d) == Put(m, 38, a + b + c + d)
    ensures Put(Put(Put(m, 38, a), 42, b), 46, c) == Put(m, 38, a + b + c)
  {
  }

  /** Leaving the last part out stores what the buffer had there. */
  lemma StaleStored(m: seq<byte>, at: nat, n: nat)
    requires at + n <= |m|
    ensures Put(m, at, m[at..at + n]) == m
  {
  }

  method BuildRead(dc: ADSConnection, indexGroup: u32, offset: u32, length: u32)
    requires dc.Valid()
    modifies dc`invokeId, dc.msgOut
    ensures Built(dc, ReadData(indexGroup, offset, length), [])
  {
    BeginRequest(dc, CMD_READ, 12);
    WordsStored(dc.msgOut[..], Le32(indexGroup), Le32(offset), Le32(length), []);
    Store(dc.msgOut, DATA, Le32(indexGroup));
    Store(dc.msgOut, DATA + 4, Le32(offset));
    Store(dc.msgOut, DATA + 8, Le32(length));
    FrameStored(old(dc.msgOut[..]), PartyOf(dc), ToU32(dc.invokeId), CMD_READ,
                Body(ReadData(indexGroup, offset, length)));
  }

  /** The bytes sent for a payload pointer that may be NULL: then what was in `msgOut` goes out again. */
  function Payload(data: Option<seq<byte>>, stale: seq<byte>, at: nat, n: nat): (d: seq<byte>)
    requires data.Some? ==> n <= |data.value|
    requires at + n <= |stale|
    ensures |d| == n
  {
    if data.Some? then data.value[..n] else stale[at..at + n]
  }

  /** The payload is the same as long as nothing is stored where it goes. */
  lemma SamePayload(data: Option<seq<byte>>, before: seq<byte>, now: seq<byte>, at: nat, n: nat)
    requires data.Some? ==> n <= |data.value|
    requires |before| == |now| && at + n <= |now| && forall i :: at <= i < |now| ==> now[i] == before[i]
    ensures Payload(data, now, at, n) == Payload(data, before, at, n)
  {
  }

  /** The `memcpy` of a payload. */
  method StorePayload(a: array<byte>, at: nat, n: nat, data: Option<seq<byte>>)
    requires at + n <= a.Length && (data.Some? ==> n <= |data.value|)
    modifies a
    ensures a[..] == Put(old(a[..]), at, Payload(data, old(a[..]), at, n))
  {
    if data.Some? {
      Store(a, at, data.value[..n]);
    } else {
      StaleStored(a[..], at, n);
    }
  }

  lemma WriteStored(before: seq<byte>, p: Party, id: u32, g: u32, o: u32, d: seq<byte>)
    requires |before| == MAXDATALEN && |d| <= 8142
    ensures var m := Opened(before, p, id, CMD_WRITE, 12 + |d|);
      Put(Put(Put(Put(m, 38, Le32(g)), 42, Le32(o)), 46, Le32(|d|)), 50, d)
         == Put(before, 0, RequestFrame(p, id, WriteData(g, o, d)) + [])
  {
  }

  method BuildWrite(dc: ADSConnection, indexGroup: int, offset: int, length: nat, data: Option<seq<byte>>)
    requires dc.Valid() && length <= 8142 && (data.Some? ==> length <= |data.value|)
    modifies dc`invokeId, dc.msgOut
    ensures Built(dc, WriteData(ToU32(indexGroup), ToU32(offset), Payload(data, old(dc.msgOut[..]), 50, length)), [])
  {
    ghost var d := Payload(data, dc.msgOut[..], 50, length);
    BeginRequest(dc, CMD_WRITE, 12 + length);
    Store(dc.msgOut, DATA, Le32(ToU32(indexGroup)));
    Store(dc.msgOut, DATA + 4, Le32(ToU32(offset)));
    Store(dc.msgOut, DATA + 8, Le32(length));
    SamePayload(data, old(dc.msgOut[..]), dc.msgOut[..], 50, length);
    StorePayload(dc.msgOut, 50, length, data);
    WriteStored(old(dc.msgOut[..]), PartyOf(dc), ToU32(dc.invokeId), ToU32(indexGroup), ToU32(offset), d);
  }

  lemma ReadWriteStored(before: seq<byte>, p: Party, id: u32, g: u32, o: u32, n: u32, d: seq<byte>)
    requires |before| == MAXDATALEN && |d| <= 8138
    ensures var m := Opened(before, p, id, CMD_READ_WRITE, 16 + |d|);
      Put(Put(Put(Put(Put(m, 38, Le32(g)), 42, Le32(o)), 50, Le32(|d|)), 46, Le32(n)), 54, d)
         == Put(before, 0, RequestFrame(p, id, ReadWrite(g, o, n, d)) + [])
  {
    var body := Le32(g) + Le32(o) + Le32(n) + Le32(|d|) + d;
    LengthsStored(Opened(before, p, id, CMD_READ_WRITE, 16 + |d|), Le32(g), Le32(o), Le32(n), Le32(|d|), d);
    FrameStored(before, p, id, CMD_READ_WRITE, body);
    var r := ReadWrite(g, o, n, d);
    assert |body| == 16 + |d| == DataLength(r) == ToU32(DataLength(r)) && ToU32(|d|) == |d|;
    assert RequestFrame(p, id, r) == FrameOf(p, id, CMD_READ_WRITE, |body|, body);
  }

  method BuildReadWrite(dc: ADSConnection, indexGroup: u32, offset: u32, readLength: u32,
                        writeLength: nat, data: Option<seq<byte>>)
    requires dc.Valid() && writeLength <= 8138 && (data.Some? ==> writeLength <= |data.value|)
    modifies dc`invokeId, dc.msgOut
    ensures Built(dc, ReadWrite(indexGroup, offset, readLength, Payload(data, old(dc.msgOut[..]), 54, writeLength)), [])
  {
    ghost var d := Payload(data, dc.msgOut[..], 54, writeLength);
    BeginRequest(dc, CMD_READ_WRITE, 16 + writeLength);
    Store(dc.msgOut, DATA, Le32(indexGroup));
    Store(dc.msgOut, DATA + 4, Le32(offset));
    Store(dc.msgOut, DATA + 12, Le32(writeLength));
    Store(dc.msgOut, DATA + 8, Le32(readLength));
    SamePayload(data, old(dc.msgOut[..]), dc.msgOut[..], 54, writeLength);
    StorePayload(dc.msgOut, 54, writeLength, data);
    ReadWriteStored(old(dc.msgOut[..]), PartyOf(dc), ToU32(dc.invokeId), indexGroup, offset, readLength, d);
  }

  /** The order in which `ADSreadWriteBytes` stores the two lengths does not matter. */
  lemma LengthsStored(m: seq<byte>, a: seq<byte>, b: seq<byte>, c: seq<byte>, d: seq<byte>, e: seq<byte>)
    requires |a| == |b| == |c| == |d| == 4 && 54 + |e| <= |m|
    ensures Put(Put(Put(Put(Put(m, 38, a), 42, b), 50, d), 46, c), 54, e) == Put(m, 38, a + b + c + d + e)
  {
  }

  method BuildPlain(dc: ADSConnection, ghost r: Request, command: u16)
    requires dc.Valid() && (r.ReadState? || r.ReadDevInfo?) && command == Command(r)
    modifies dc`invokeId, dc.msgOut
    ensures Built(dc, r, [])
  {
    BeginRequest(dc, command, 0);
    FrameStored(old(dc.msgOut[..]), PartyOf(dc), ToU32(dc.invokeId), command, []);
    StaleStored(dc.msgOut[..], DATA, 0);
    assert dc.msgOut[..][DATA..DATA] == [] == Body(r) && DataLength(r) == 0 == ToU32(0);
  }

  /** The stores of `ADSwriteControl`, in the order in which it makes them, without and with data. */
  lemma ControlStored(before: seq<byte>, p: Party, id: u32, a: u16, d: u16, data: seq<byte>)
    requires |before| == MAXDATALEN && |data| <= 8146
    ensures var m := Put(Put(Put(Opened(before, p, id, CMD_WRITE_CONTROL, 8), 38, Le16(a)), 40, Le16(d)), 42, Le32(0));
      && m == Put(before, 0, RequestFrame(p, id, WriteControl(a, d, 0)) + [])
      && Put(Put(Put(m, 46, data), 42, Le32(|data|)), 26, Le32(8 + |data|))
         == Put(before, 0, RequestFrame(p, id, WriteControl(a, d, |data|)) + data)
  {
    var m0 := Opened(before, p, id, CMD_WRITE_CONTROL, 8);
    PutAdjacent(m0, 38, Le16(a), Le16(d));
    PutAdjacent(m0, 38, Le16(a) + Le16(d), Le32(0));
    FrameStored(before, p, id, CMD_WRITE_CONTROL, Le16(a) + Le16(d) + Le32(0));
    Reorder(Put(Put(m0, 38, Le16(a)), 40, Le16(d)), m0,
            Le16(a) + Le16(d), Le32(0), Le32(|data|), data, Le32(8 + |data|));
    ControlDataStored(before, p, id, Le16(a) + Le16(d) + Le32(|data|), data);
    ControlFrame(p, id, a, d, 0);
    ControlFrame(p, id, a, d, |data|);
  }

  lemma ControlFrame(p: Party, id: u32, a: u16, d: u16, n: nat)
    requires n <= 8146
    ensures RequestFrame(p, id, WriteControl(a, d, n))
      == FrameOf(p, id, CMD_WRITE_CONTROL, 8 + n, Le16(a) + Le16(d) + Le32(n))
  {
  }

  lemma ControlDataStored(before: seq<byte>, p: Party, id: u32, body: seq<byte>, data: seq<byte>)
    requires |before| == MAXDATALEN && |data| <= 8146 && |body| == 8
    ensures Put(Put(Opened(before, p, id, CMD_WRITE_CONTROL, 8), 26, Le32(8 + |data|)), 38, body + data)
         == Put(before, 0, FrameOf(p, id, CMD_WRITE_CONTROL, 8 + |data|, body) + data)
  {
  }

  lemma Reorder(m1: seq<byte>, m0: seq<byte>, ad: seq<byte>, z: seq<byte>, n: seq<byte>, data: seq<byte>, l: seq<byte>)
    requires |ad| == |z| == |n| == |l| == 4 && |m0| == MAXDATALEN && |data| <= 8146
    requires m1 == Put(m0, 38, ad)
    ensures Put(Put(Put(Put(m1, 42, z), 46, data), 42, n), 26, l) == Put(Put(m0, 26, l), 38, ad + n + data)
  {
  }

  /** The data that `ADSwriteControl` stores behind its packet. */
  function Unsent(data: Option<seq<byte>>, length: nat): seq<byte>
    requires data.Some? ==> length <= |data.value|
  {
    if data.Some? then data.value[..length] else []
  }

  method BuildWriteControl(dc: ADSConnection, adsState: u16, devState: u16, data: Option<seq<byte>>, length: nat)
    requires dc.Valid() && length <= 8146 && (data.Some? ==> length <= |data.value|)
    modifies dc`invokeId, dc.msgOut
    ensures Built(dc, WriteControl(adsState, devState, |Unsent(data, length)|), Unsent(data, length))
  {
    BeginRequest(dc, CMD_WRITE_CONTROL, 8);
    Store(dc.msgOut, DATA, Le16(adsState));
    Store(dc.msgOut, DATA + 2, Le16(devState));
    Store(dc.msgOut, DATA + 4, Le32(0));
    ControlStored(old(dc.msgOut[..]), PartyOf(dc), ToU32(dc.invokeId), adsState, devState, Unsent(data, length));
    if data.Some? {
      Store(dc.msgOut, DATA + 8, data.value[..length]);
      Store(dc.msgOut, DATA + 4, Le32(length));
      Store(dc.msgOut, 26, Le32(8 + length));
    }
  }

  /** A built request starts `msgOut` as one complete packet. */
  lemma BuiltIsFrame(before: seq<byte>, m: seq<byte>, p: Party, id: u32, r: Request, extra: seq<byte>)
    requires Fits(r) && |before| == MAXDATALEN && |RequestFrame(p, id, r) + extra| <= MAXDATALEN
    requires m == Put(before, 0, RequestFrame(p, id, r) + extra)
    ensures var f := RequestFrame(p, id, r);
      f <= m && |f| == TCP_HEADER + PacketLength(f)
  {
    FrameEquation(p, id, r);
    var f := RequestFrame(p, id, r);
    assert forall i :: 0 <= i < |f| ==> m[i] == (f + extra)[i] == f[i];
  }

  /**
    What goes out behind the headers of a write and a read-write: the data of the
    caller, or for a NULL pointer the bytes that `msgOut` held there before.
   */
  lemma PayloadSent(data: Option<seq<byte>>, out: seq<byte>, n: nat, p: Party, id: u32, g: u32, o: u32, length: u32)
    requires |out| == 8192 && n <= 8138 && (data.Some? ==> n <= |data.value|)
    ensures RequestFrame(p, id, WriteData(g, o, Payload(data, out, 50, n)))[50..]
         == if data.None? then out[50..50 + n] else data.value[..n]
    ensures RequestFrame(p, id, ReadWrite(g, o, length, Payload(data, out, 54, n)))[54..]
         == if data.None? then out[54..54 + n] else data.value[..n]
  {
    RequestDataOnTheWire(p, id, WriteData(g, o, Payload(data, out, 50, n)));
    RequestDataOnTheWire(p, id, ReadWrite(g, o, length, Payload(data, out, 54, n)));
  }

  /** Of a write control with data the length is sent, and not the data, which is stored behind the packet. */
  lemma ControlSent(data: Option<seq<byte>>, n: nat, out: seq<byte>, p: Party, id: u32, a: u16, d: u16)
    requires |out| == 8192 && n <= 8146 && (data.Some? ==> n <= |data.value|)
    ensures var extra := Unsent(data, n);
      && |extra| == (if data.None? then 0 else n)
      && var f := RequestFrame(p, id, WriteControl(a, d, |extra|));
      && |f| == 46 && Get32(f, 42) == |extra|
      && Put(out, 0, f + extra)[46..] == if data.None? then out[46..] else data.value[..n] + out[46 + n..]
  {
    RequestDataOnTheWire(p, id, WriteControl(a, d, |Unsent(data, n)|));
  }

  /** The write and the read of each of the six calls. */
  method SendAndReceive(k: Kernel, dc: ADSConnection, ghost frame: seq<byte>) returns (sent: bool, rc: int, error: int)
    requires Usable(k, dc)
    requires frame <= dc.msgOut[..] && |frame| >= TCP_HEADER && |frame| == TCP_HEADER + PacketLength(frame)
    modifies k`sockets, k`clock, dc`AnswLen, dc.msgIn
    ensures var x := Exchange(dc.iface.error, old(k.sockets)[dc.iface.sd], dc.iface.timeout, frame, old(dc.msgIn[..]));
      && sent == x.sent && rc == x.rc && (sent ==> error == x.error)
      && dc.msgIn[..] == x.image
      && k.sockets == old(k.sockets)[dc.iface.sd := x.socket]
      && k.clock == old(k.clock) + x.elapsed
      && dc.AnswLen == if sent then rc else old(dc.AnswLen)
  {
    assert PacketLength(dc.msgOut[..]) == PacketLength(frame);
    assert dc.msgOut[..TCP_HEADER + PacketLength(dc.msgOut[..])] == frame;
    rc, error := WritePacket(k, dc.iface, dc.msgOut);
    sent := rc > 0;
    if sent {
      rc, error := ReadPacket(k, dc.iface, dc.msgIn);
      dc.AnswLen := rc;
    }
  }

  // ---------------------------------------------------------------- the calls

  /** `ADSreadBytes`. */
  method ReadBytes(k: Kernel, dc: ADSConnection, indexGroup: u32, offset: u32, length: u32, hasBuffer: bool)
    returns (ret: int, nRead: Option<u32>, copied: Copied)
    requires Usable(k, dc)
    modifies k`sockets, k`clock, dc`invokeId, dc`AnswLen, dc.msgIn, dc.msgOut
    ensures Called(k, dc, ReadData(indexGroup, offset, length), [])
    ensures var x := Traffic(k, dc, ReadData(indexGroup, offset, length));
      if x.sent then ReadOutcome(ret, dc.AnswLen, nRead, copied)
        == DecodeRead(x.rc, x.error, x.image, length, hasBuffer)
      else ret == TranslateWrError(x.rc) && dc.AnswLen == old(dc.AnswLen) && nRead == None && copied == NoCopy
  {
    ghost var r := ReadData(indexGroup, offset, length);
    BuildRead(dc, indexGroup, offset, length);
    BuiltIsFrame(old(dc.msgOut[..]), dc.msgOut[..], PartyOf(dc), ToU32(dc.invokeId), r, []);
    var sent, rc, error := SendAndReceive(k, dc, RequestFrame(PartyOf(dc), ToU32(dc.invokeId), r));
    nRead, copied := None, NoCopy;
    if !sent {
      return TranslateWrError(rc), nRead, copied;
    }
    if rc > 0 && error == 0 {
      if CommandIn(dc.msgIn[..]) == CMD_READ {
        var n := LengthIn(dc.msgIn[..]);
        dc.AnswLen := ToInt32(n);
        if hasBuffer {
          if n > length {
            return 0x705, nRead, copied;
          }
          copied := CopyOut(dc.msgIn[..], 46, n);
        }
        return ToInt32(ResultIn(dc.msgIn[..])), Some(n), copied;
      } else {
        return ToInt32(ErrorIn(dc.msgIn[..])), nRead, copied;
      }
    }
    return TranslateRdError(rc), nRead, copied;
  }

  /** `ADSwriteBytes`; a NULL `data` sends what `msgOut` held before. */
  method WriteBytes(k: Kernel, dc: ADSConnection, indexGroup: int, offset: int, length: nat, data: Option<seq<byte>>)
    returns (ret: int)
    requires Usable(k, dc) && length <= 8142 && (data.Some? ==> length <= |data.value|)
    modifies k`sockets, k`clock, dc`invokeId, dc`AnswLen, dc.msgIn, dc.msgOut
    ensures Called(k, dc, WriteData(ToU32(indexGroup), ToU32(offset),
        Payload(data, old(dc.msgOut[..]), 50, length)), [])
    ensures var x := Traffic(k, dc, WriteData(ToU32(indexGroup), ToU32(offset),
        Payload(data, old(dc.msgOut[..]), 50, length)));
      && dc.AnswLen == (if x.sent then x.rc else old(dc.AnswLen))
      && ret == if x.sent then DecodeWrite(x.rc, x.error, x.image) else TranslateWrError(x.rc)
  {
    ghost var r := WriteData(ToU32(indexGroup), ToU32(offset), Payload(data, dc.msgOut[..], 50, length));
    BuildWrite(dc, indexGroup, offset, length, data);
    BuiltIsFrame(old(dc.msgOut[..]), dc.msgOut[..], PartyOf(dc), ToU32(dc.invokeId), r, []);
    var sent, rc, error := SendAndReceive(k, dc, RequestFrame(PartyOf(dc), ToU32(dc.invokeId), r));
    if !sent {
      return TranslateWrError(rc);
    }
    if ToSizeT(dc.AnswLen) >= TCP_HEADER + AMS_HEADER {
      if error == 0 {
        return ToInt32(ResultIn(dc.msgIn[..]));
      } else {
        return ToInt32(ErrorIn(dc.msgIn[..]));
      }
    }
    return TranslateRdError(dc.AnswLen);
  }

  /** `ADSreadDeviceInfo`. */
  method ReadDeviceInfo(k: Kernel, dc: ADSConnection) returns (ret: int, info: Option<DeviceInfo>)
    requires Usable(k, dc)
    modifies k`sockets, k`clock, dc`invokeId, dc`AnswLen, dc.msgIn, dc.msgOut
    ensures Called(k, dc, Request.ReadDevInfo, [])
    ensures var x := Traffic(k, dc, Request.ReadDevInfo);
      && dc.AnswLen == (if x.sent then x.rc else old(dc.AnswLen))
      && InfoOutcome(ret, info)
           == (if x.sent then DecodeDevInfo(x.rc, x.error, x.image) else InfoOutcome(TranslateWrError(x.rc), None))
  {
    ghost var r := Request.ReadDevInfo;
    BuildPlain(dc, r, CMD_READ_DEV_INFO);
    BuiltIsFrame(old(dc.msgOut[..]), dc.msgOut[..], PartyOf(dc), ToU32(dc.invokeId), r, []);
    var sent, rc, error := SendAndReceive(k, dc, RequestFrame(PartyOf(dc), ToU32(dc.invokeId), r));
    if !sent {
      return TranslateWrError(rc), None;
    }
    if rc > 0 && error == 0 {
      var m := dc.msgIn[..];
      if CommandIn(m) == CMD_READ_DEV_INFO {
        return ToInt32(ResultIn(m)), Some(DeviceInfo(m[42], m[43], Get16(m, 44), m[46..62]));
      } else {
        return ToInt32(ErrorIn(m)), None;
      }
    }
    return TranslateRdError(rc), None;
  }

  /** `ADSreadWriteBytes`. */
  method ReadWriteBytes(k: Kernel, dc: ADSConnection, indexGroup: u32, offset: u32, readLength: u32,
                        writeLength: nat, data: Option<seq<byte>>)
    returns (ret: int, nRead: Option<u32>, copied: Copied)
    requires Usable(k, dc) && writeLength <= 8138 && (data.Some? ==> writeLength <= |data.value|)
    modifies k`sockets, k`clock, dc`invokeId, dc`AnswLen, dc.msgIn, dc.msgOut
    ensures Called(k, dc, ReadWrite(indexGroup, offset, readLength,
        Payload(data, old(dc.msgOut[..]), 54, writeLength)), [])
    ensures var x := Traffic(k, dc, ReadWrite(indexGroup, offset, readLength,
        Payload(data, old(dc.msgOut[..]), 54, writeLength)));
      if x.sent then ReadOutcome(ret, dc.AnswLen, nRead, copied) == DecodeReadWrite(x.rc, x.error, x.image, readLength)
      else ret == TranslateWrError(x.rc) && dc.AnswLen == old(dc.AnswLen) && nRead == None && copied == NoCopy
  {
    ghost var r := ReadWrite(indexGroup, offset, readLength, Payload(data, dc.msgOut[..], 54, writeLength));
    BuildReadWrite(dc, indexGroup, offset, readLength, writeLength, data);
    BuiltIsFrame(old(dc.msgOut[..]), dc.msgOut[..], PartyOf(dc), ToU32(dc.invokeId), r, []);
    var sent, rc, error := SendAndReceive(k, dc, RequestFrame(PartyOf(dc), ToU32(dc.invokeId), r));
    if !sent {
      return TranslateWrError(rc), None, NoCopy;
    }
    if rc > 0 && error == 0 {
      var m := dc.msgIn[..];
      if CommandIn(m) == CMD_READ_WRITE {
        var n := LengthIn(m);
        if n > readLength {
          return 0x705, None, NoCopy;
        }
        return ToInt32(ResultIn(m)), Some(n), CopyOut(m, 46, n);
      } else {
        return ToInt32(ErrorIn(m)), None, NoCopy;
      }
    }
    return TranslateRdError(rc), None, NoCopy;
  }

  /** `ADSreadState`. */
  method ReadDeviceState(k: Kernel, dc: ADSConnection) returns (ret: int, states: Option<(u16, u16)>)
    requires Usable(k, dc)
    modifies k`sockets, k`clock, dc`invokeId, dc`AnswLen, dc.msgIn, dc.msgOut
    ensures Called(k, dc, Request.ReadState, [])
    ensures var x := Traffic(k, dc, Request.ReadState);
      && dc.AnswLen == (if x.sent then x.rc else old(dc.AnswLen))
      && StateOutcome(ret, states)
           == (if x.sent then DecodeState(x.rc, x.error, x.image) else StateOutcome(TranslateWrError(x.rc), None))
  {
    ghost var r := Request.ReadState;
    BuildPlain(dc, r, CMD_READ_STATE);
    BuiltIsFrame(old(dc.msgOut[..]), dc.msgOut[..], PartyOf(dc), ToU32(dc.invokeId), r, []);
    var sent, rc, error := SendAndReceive(k, dc, RequestFrame(PartyOf(dc), ToU32(dc.invokeId), r));
    if !sent {
      return TranslateWrError(rc), None;
    }
    if rc > 0 && error == 0 {
      var m := dc.msgIn[..];
      if CommandIn(m) == CMD_READ_STATE {
        return ToInt32(ResultIn(m)), Some((Get16(m, 42), Get16(m, 44)));
      } else {
        return ToInt32(ErrorIn(m)), None;
      }
    }
    return TranslateRdError(rc), None;
  }

  /** `ADSwriteControl`; the data is stored behind the packet and not sent. */
  method WriteControlData(k: Kernel, dc: ADSConnection, adsState: int, devState: int, data: Option<seq<byte>>,
                          length: nat)
    returns (ret: int)
    requires Usable(k, dc) && length <= 8146 && (data.Some? ==> length <= |data.value|)
    modifies k`sockets, k`clock, dc`invokeId, dc`AnswLen, dc.msgIn, dc.msgOut
    ensures Called(k, dc, WriteControl(ToU16(adsState), ToU16(devState), |Unsent(data, length)|), Unsent(data, length))
    ensures var x := Traffic(k, dc, WriteControl(ToU16(adsState), ToU16(devState), |Unsent(data, length)|));
      && dc.AnswLen == (if x.sent then x.rc else old(dc.AnswLen))
      && ret == if x.sent then DecodeControl(x.rc, x.error, x.image) else TranslateWrError(x.rc)
  {
    ghost var extra := Unsent(data, length);
    ghost var r := WriteControl(ToU16(adsState), ToU16(devState), |extra|);
    BuildWriteControl(dc, ToU16(adsState), ToU16(devState), data, length);
    BuiltIsFrame(old(dc.msgOut[..]), dc.msgOut[..], PartyOf(dc), ToU32(dc.invokeId), r, extra);
    var sent, rc, error := SendAndReceive(k, dc, RequestFrame(PartyOf(dc), ToU32(dc.invokeId), r));
    if !sent {
      return TranslateWrError(rc);
    }
    if rc > 0 && error == 0 {
      return ToInt32(ResultIn(dc.msgIn[..]));
    } else {
      return ToInt32(ErrorIn(dc.msgIn[..]));
    }
  }
}
