/**
  Replies as any device may send them, and what the six calls of src/ads.c make of
  them: the values in the packet come out of the call.
 */
module Replies {
  import opened Bytes
  import opened AdsH
  import opened Kernel
  import opened AdsIo
  import opened Requests
  import opened Ads
  import opened Framing
  import opened EndToEnd

  /** The data part of a reply; every one starts with a result code. */
  datatype Answer =
    | Plain(result: u32)
    | Sized(result: u32, data: seq<byte>)
    | States(result: u32, adsState: u16, devState: u16)
    | Device(result: u32, version: byte, revision: byte, build: u16, name: seq<byte>)

  predicate Fitting(a: Answer) {
    && (a.Sized? ==> |a.data| <= 8146)
    && (a.Device? ==> |a.name| == 24)
  }

  function AnswerBytes(a: Answer): (b: seq<byte>)
    requires Fitting(a)
    ensures 4 <= |b| <= 8154
  {
    match a
    case Plain(r) => Le32(r)
    case Sized(r, d) => Le32(r) + Le32(|d|) + d
    case States(r, s, d) => Le32(r) + Le16(s) + Le16(d)
    case Device(r, v, w, b, n) => Le32(r) + [v, w] + Le16(b) + n
  }

  /** The reply packet with this header. */
  function Packet(h: AmsHeader, a: Answer): (f: seq<byte>)
    requires Fitting(a)
    ensures |f| == DATA + |AnswerBytes(a)|
  {
    HeaderBytes(AMS_HEADER + |AnswerBytes(a)|, h) + AnswerBytes(a)
  }

  lemma PacketSeen(h: AmsHeader, a: Answer, m: seq<byte>)
    requires Fitting(a) && |m| == MAXDATALEN && Packet(h, a) <= m
    ensures CommandIn(m) == h.commandId && ErrorIn(m) == h.errorCode && InvokeIn(m) == h.invokeId
    ensures m[DATA..DATA + |AnswerBytes(a)|] == AnswerBytes(a)
    ensures ResultIn(m) == a.result
  {
    var b := AnswerBytes(a);
    HeaderThen(AMS_HEADER + |b|, h, b, m);
    assert HeaderView(m) == h;
    ResultSeen(a, m);
  }

  lemma ResultSeen(a: Answer, m: seq<byte>)
    requires Fitting(a) && |m| == MAXDATALEN && DATA + |AnswerBytes(a)| <= |m|
    requires m[DATA..DATA + |AnswerBytes(a)|] == AnswerBytes(a)
    ensures ResultIn(m) == a.result
  {
    var b := AnswerBytes(a);
    assert m[38..42] == m[DATA..DATA + |b|][..4] == b[..4] == Le32(a.result);
    Le32Get32(m, 38, a.result);
  }

  lemma PacketIsFrame(h: AmsHeader, a: Answer)
    requires Fitting(a)
    ensures IsFrame(Packet(h, a)) && |Packet(h, a)| <= MAXDATALEN
  {
    var b := AnswerBytes(a);
    HeaderThen(AMS_HEADER + |b|, h, b, Packet(h, a));
  }

  lemma SizedSeen(r: u32, d: seq<byte>, m: seq<byte>)
    requires |m| == MAXDATALEN && |d| <= 8146 && m[DATA..46 + |d|] == Le32(r) + Le32(|d|) + d
    ensures LengthIn(m) == |d| && m[46..46 + |d|] == d
  {
    var s := Le32(r) + Le32(|d|) + d;
    var b := m[DATA..46 + |d|];
    assert b == s;
    assert forall i :: DATA <= i < 46 + |d| ==> m[i] == b[i - DATA] == s[i - DATA];
    assert m[42..46] == s[4..8] == Le32(|d|);
    assert m[46..46 + |d|] == s[8..] == d;
    Le32Get32(m, 42, |d|);
  }

  // ---------------------------------------------------------------- the calls

  /** A read delivers the result and the data of the reply, whatever they are; data that is too long is refused. */
  lemma ReadGetsReply(h: AmsHeader, result: u32, data: seq<byte>, m: seq<byte>, rc: int, length: u32, hasBuffer: bool)
    requires |data| <= 8146 && h.commandId == 2 && rc > 0
    requires |m| == MAXDATALEN && Packet(h, Sized(result, data)) <= m
    ensures DecodeRead(rc, 0, m, length, hasBuffer)
         == if hasBuffer && |data| > length then ReadOutcome(0x705, |data|, None, NoCopy)
            else ReadOutcome(ToInt32(result), |data|, Some(|data|), if hasBuffer then Copy(data) else NoCopy)
  {
    PacketSeen(h, Sized(result, data), m);
    SizedSeen(result, data, m);
  }

  /** The same for a read-write. */
  lemma ReadWriteGetsReply(h: AmsHeader, result: u32, data: seq<byte>, m: seq<byte>, rc: int, length: u32)
    requires |data| <= 8146 && h.commandId == 9 && rc > 0
    requires |m| == MAXDATALEN && Packet(h, Sized(result, data)) <= m
    ensures DecodeReadWrite(rc, 0, m, length)
         == if |data| > length then ReadOutcome(0x705, rc, None, NoCopy)
            else ReadOutcome(ToInt32(result), rc, Some(|data|), Copy(data))
  {
    PacketSeen(h, Sized(result, data), m);
    SizedSeen(result, data, m);
  }

  /** The states of a device are delivered as it sent them. */
  lemma StateGetsReply(h: AmsHeader, result: u32, adsState: u16, devState: u16, m: seq<byte>, rc: int)
    requires h.commandId == 4 && rc > 0
    requires |m| == MAXDATALEN && Packet(h, States(result, adsState, devState)) <= m
    ensures DecodeState(rc, 0, m) == StateOutcome(ToInt32(result), Some((adsState, devState)))
  {
    PacketSeen(h, States(result, adsState, devState), m);
    var s := Le32(result) + Le16(adsState) + Le16(devState);
    assert m[42..44] == m[DATA..46][4..6] == s[4..6] == Le16(adsState);
    assert m[44..46] == m[DATA..46][6..8] == s[6..8] == Le16(devState);
    Le16Get16(m, 42, adsState);
    Le16Get16(m, 44, devState);
  }

  /** The version and the first 16 bytes of the name are delivered as the device sent them. */
  lemma InfoGetsReply(h: AmsHeader, result: u32, version: byte, revision: byte, build: u16, name: seq<byte>,
                      m: seq<byte>, rc: int)
    requires h.commandId == 1 && rc > 0 && |name| == 24
    requires |m| == MAXDATALEN && Packet(h, Device(result, version, revision, build, name)) <= m
    ensures DecodeDevInfo(rc, 0, m)
         == InfoOutcome(ToInt32(result), Some(DeviceInfo(version, revision, build, name[..16])))
  {
    PacketSeen(h, Device(result, version, revision, build, name), m);
    var s := Le32(result) + [version, revision] + Le16(build) + name;
    var b := m[DATA..70];
    assert b == s;
    assert m[42] == b[4] == version && m[43] == b[5] == revision;
    assert m[44..46] == b[6..8] == s[6..8] == Le16(build);
    assert m[46..62] == b[8..24] == s[8..24] == name[..16];
    Le16Get16(m, 44, build);
  }

  /** Both kinds of writes return the result of the reply. */
  lemma WriteGetsReply(h: AmsHeader, result: u32, m: seq<byte>, rc: int)
    requires rc >= 38 && rc < 0x1_0000_0000 && |m| == MAXDATALEN && Packet(h, Plain(result)) <= m
    ensures DecodeWrite(rc, 0, m) == ToInt32(result) && DecodeControl(rc, 0, m) == ToInt32(result)
  {
    PacketSeen(h, Plain(result), m);
  }

  /** A reply to another command makes the four calls that look at it return its error code and deliver nothing. */
  lemma OtherReply(h: AmsHeader, a: Answer, m: seq<byte>, rc: int, length: u32, hasBuffer: bool)
    requires Fitting(a) && rc > 0 && |m| == MAXDATALEN && Packet(h, a) <= m
    ensures var e := ToInt32(h.errorCode);
      && (h.commandId != 2 ==> DecodeRead(rc, 0, m, length, hasBuffer) == ReadOutcome(e, rc, None, NoCopy))
      && (h.commandId != 9 ==> DecodeReadWrite(rc, 0, m, length) == ReadOutcome(e, rc, None, NoCopy))
      && (h.commandId != 4 ==> DecodeState(rc, 0, m) == StateOutcome(e, None))
      && (h.commandId != 1 ==> DecodeDevInfo(rc, 0, m) == InfoOutcome(e, None))
  {
    PacketSeen(h, a, m);
  }

  // ---------------------------------------------------------------- on the wire

  /** A reply that comes in time is what the call finds in its buffer. */
  lemma ReplyArrives(c: Socket, timeout: int, frame: seq<byte>, image: seq<byte>, h: AmsHeader, a: Answer)
    requires Fitting(a) && c.sends == [] && |image| == MAXDATALEN
    requires var f := Packet(h, a); StreamBytes(c.input) == f && Arrives(c.input, BudgetOf(timeout), |f|)
    ensures var x := Exchange(0, c, timeout, frame, image);
      x.sent && x.rc == |Packet(h, a)| && x.error == 0 && Packet(h, a) <= x.image
  {
    PacketIsFrame(h, a);
    ReadWhole(c.input, timeout, image, Packet(h, a));
  }

  /** So a read returns whatever result and data the device answers in time. */
  lemma ReadFromDevice(c: Socket, timeout: int, frame: seq<byte>, image: seq<byte>, h: AmsHeader,
                       result: u32, data: seq<byte>, length: u32)
    requires c.sends == [] && |image| == MAXDATALEN && |data| <= 8146 && |data| <= length && h.commandId == 2
    requires var f := Packet(h, Sized(result, data));
      StreamBytes(c.input) == f && Arrives(c.input, BudgetOf(timeout), |f|)
    ensures var x := Exchange(0, c, timeout, frame, image);
      x.sent && DecodeRead(x.rc, x.error, x.image, length, true)
                  == ReadOutcome(ToInt32(result), |data|, Some(|data|), Copy(data))
  {
    ReplyArrives(c, timeout, frame, image, h, Sized(result, data));
    ReadGetsReply(h, result, data, Exchange(0, c, timeout, frame, image).image, 46 + |data|, length, true);
  }

  /** And a state call whatever states it answers. */
  lemma StateFromDevice(c: Socket, timeout: int, frame: seq<byte>, image: seq<byte>, h: AmsHeader,
                        result: u32, adsState: u16, devState: u16)
    requires c.sends == [] && |image| == MAXDATALEN && h.commandId == 4
    requires var f := Packet(h, States(result, adsState, devState));
      StreamBytes(c.input) == f && Arrives(c.input, BudgetOf(timeout), |f|)
    ensures var x := Exchange(0, c, timeout, frame, image);
      x.sent && DecodeState(x.rc, x.error, x.image) == StateOutcome(ToInt32(result), Some((adsState, devState)))
  {
    ReplyArrives(c, timeout, frame, image, h, States(result, adsState, devState));
    StateGetsReply(h, result, adsState, devState, Exchange(0, c, timeout, frame, image).image, 46);
  }
}
