/** The request packets of src/ads.c and what a receiver sees in them. */
module Requests {
  import opened Bytes
  import opened AdsH

  /** The addresses of a connection, as `_ADSsetupAmsHeader` copies them. */
  datatype Party = Party(target: NetId, targetPort: u16, source: NetId, sourcePort: u16)

  /** A request; `WriteControl` carries only the length of its data, because the data is not sent. */
  datatype Request =
    | ReadDevInfo
    | ReadData(group: u32, offset: u32, length: u32)
    | WriteData(group: u32, offset: u32, data: seq<byte>)
    | ReadState
    | WriteControl(adsState: u16, devState: u16, count: nat)
    | ReadWrite(group: u32, offset: u32, length: u32, data: seq<byte>)

  function Command(r: Request): u16 {
    match r
    case ReadDevInfo => CMD_READ_DEV_INFO
    case ReadData(_, _, _) => CMD_READ
    case WriteData(_, _, _) => CMD_WRITE
    case ReadState => CMD_READ_STATE
    case WriteControl(_, _, _) => CMD_WRITE_CONTROL
    case ReadWrite(_, _, _, _) => CMD_READ_WRITE
  }

  /** The data part that is sent. */
  function Body(r: Request): seq<byte> {
    match r
    case ReadDevInfo => []
    case ReadData(g, o, n) => Le32(g) + Le32(o) + Le32(n)
    case WriteData(g, o, d) => Le32(g) + Le32(o) + Le32(ToU32(|d|)) + d
    case ReadState => []
    case WriteControl(a, d, n) => Le16(a) + Le16(d) + Le32(ToU32(n))
    case ReadWrite(g, o, n, d) => Le32(g) + Le32(o) + Le32(n) + Le32(ToU32(|d|)) + d
  }

  /** `amsHeader.dataLength`: `ADSwriteControl` adds the length of data that is not sent. */
  function DataLength(r: Request): nat {
    |Body(r)| + if r.WriteControl? then r.count else 0
  }

  function RequestHeader(p: Party, id: u32, command: u16, dataLength: u32): AmsHeader {
    AmsHeader(p.target, p.targetPort, p.source, p.sourcePort, command, 4, dataLength, 0, id)
  }

  /** A packet of the two headers and a data part. */
  function FrameOf(p: Party, id: u32, command: u16, dataLength: u32, body: seq<byte>): (f: seq<byte>)
    ensures |f| == DATA + |body|
  {
    HeaderBytes(ToU32(AMS_HEADER + |body|), RequestHeader(p, id, command, dataLength)) + body
  }

  /** The bytes handed to `send` for a request with this invokeId. */
  function RequestFrame(p: Party, id: u32, r: Request): (f: seq<byte>)
    ensures |f| == DATA + |Body(r)|
  {
    FrameOf(p, id, Command(r), ToU32(DataLength(r)), Body(r))
  }

  /** The request with its payload can be built inside `msgOut`. */
  predicate Fits(r: Request) {
    match r
    case WriteData(_, _, d) => |d| <= 8142
    case ReadWrite(_, _, _, d) => |d| <= 8138
    case WriteControl(_, _, n) => n <= 8146
    case _ => true
  }

  /** The request that the receiver's packed structures show in its buffer. */
  function RequestView(m: seq<byte>): Option<Request>
    requires |m| >= 54
  {
    var command := Get16(m, 22);
    if command == CMD_READ_DEV_INFO then Some(ReadDevInfo)
    else if command == CMD_READ then Some(ReadData(Get32(m, 38), Get32(m, 42), Get32(m, 46)))
    else if command == CMD_WRITE then
      var n := Get32(m, 46);
      if 50 + n <= |m| then Some(WriteData(Get32(m, 38), Get32(m, 42), m[50..50 + n])) else None
    else if command == CMD_READ_STATE then Some(ReadState)
    else if command == CMD_WRITE_CONTROL then Some(WriteControl(Get16(m, 38), Get16(m, 40), Get32(m, 42)))
    else if command == CMD_READ_WRITE then
      var n := Get32(m, 50);
      if 54 + n <= |m| then Some(ReadWrite(Get32(m, 38), Get32(m, 42), Get32(m, 46), m[54..54 + n])) else None
    else None
  }

  /** The bounds are tight: they are what leaves room for the packet and for the data stored behind it. */
  lemma FitsExactly(p: Party, id: u32, r: Request)
    ensures Fits(r) <==> |RequestFrame(p, id, r)| + (if r.WriteControl? then r.count else 0) <= MAXDATALEN
  {
  }

  lemma BodySize(r: Request)
    requires Fits(r)
    ensures |Body(r)| <= 8154 && DataLength(r) <= 8154
  {
  }

  lemma HeaderThen(n: u32, h: AmsHeader, b: seq<byte>, m: seq<byte>)
    requires HeaderBytes(n, h) + b <= m
    ensures HeaderView(m) == h && PacketLength(m) == n && Get16(m, 0) == 0
    ensures m[DATA..DATA + |b|] == b
  {
    PrefixSplit(HeaderBytes(n, h), b, m);
    HeaderRoundTrip(n, h, m);
  }

  lemma PrefixSplit(h: seq<byte>, b: seq<byte>, m: seq<byte>)
    requires h + b <= m
    ensures m[..|h|] == h && m[|h|..|h| + |b|] == b
  {
  }

  lemma FrameOfView(p: Party, id: u32, command: u16, dataLength: u32, body: seq<byte>, m: seq<byte>)
    requires |body| <= 8154 && FrameOf(p, id, command, dataLength, body) <= m
    ensures HeaderView(m) == RequestHeader(p, id, command, dataLength)
    ensures PacketLength(m) == AMS_HEADER + |body| && Get16(m, 0) == 0
    ensures m[DATA..DATA + |body|] == body
  {
    HeaderThen(ToU32(AMS_HEADER + |body|), RequestHeader(p, id, command, dataLength), body, m);
  }

  /** What a buffer shows once a request frame is at its start. */
  lemma FrameView(p: Party, id: u32, r: Request, m: seq<byte>)
    requires Fits(r) && RequestFrame(p, id, r) <= m
    ensures HeaderView(m) == RequestHeader(p, id, Command(r), DataLength(r))
    ensures PacketLength(m) == AMS_HEADER + |Body(r)| && Get16(m, 0) == 0
    ensures m[DATA..DATA + |Body(r)|] == Body(r)
  {
    BodySize(r);
    FrameOfView(p, id, Command(r), ToU32(DataLength(r)), Body(r), m);
  }

  /**
    `adsHeader.length` is 32 more than `amsHeader.dataLength`, as the protocol
    demands, exactly when the request is not a write control with data.  In
    every case the bytes sent are 6 more than `adsHeader.length`.
   */
  lemma FrameEquation(p: Party, id: u32, r: Request)
    requires Fits(r)
    ensures var f := RequestFrame(p, id, r);
      && |f| == TCP_HEADER + PacketLength(f)
      && (PacketLength(f) == AMS_HEADER + HeaderView(f).dataLength <==> !(r.WriteControl? && r.count > 0))
  {
    FrameView(p, id, r, RequestFrame(p, id, r));
  }

  /**
    The header of every request at its places in the packet: flags 4, no error,
    the invokeId, and the addresses of the two parties.
   */
  lemma RequestHeaderOnTheWire(p: Party, id: u32, r: Request)
    requires Fits(r)
    ensures var f := RequestFrame(p, id, r);
      && Get16(f, 0) == 0 && Get32(f, 2) == |f| - 6
      && f[6..12] == p.target && Get16(f, 12) == p.targetPort
      && f[14..20] == p.source && Get16(f, 20) == p.sourcePort
      && Get16(f, 24) == 4 && Get32(f, 30) == 0 && Get32(f, 34) == id
      && match r
         case ReadDevInfo => Get16(f, 22) == 1 && Get32(f, 26) == 0
         case ReadData(_, _, _) => Get16(f, 22) == 2 && Get32(f, 26) == 12
         case WriteData(_, _, d) => Get16(f, 22) == 3 && Get32(f, 26) == 12 + |d|
         case ReadState => Get16(f, 22) == 4 && Get32(f, 26) == 0
         case WriteControl(_, _, n) => Get16(f, 22) == 5 && Get32(f, 26) == 8 + n
         case ReadWrite(_, _, _, d) => Get16(f, 22) == 9 && Get32(f, 26) == 16 + |d|
  {
    var f := RequestFrame(p, id, r);
    FrameView(p, id, r, f);
    BodySize(r);
    assert HeaderView(f) == RequestHeader(p, id, Command(r), DataLength(r));
  }

  /** The data part of every request at its places in the packet. */
  lemma RequestDataOnTheWire(p: Party, id: u32, r: Request)
    requires Fits(r)
    ensures var f := RequestFrame(p, id, r);
      match r
      case ReadDevInfo => |f| == 38
      case ReadData(g, o, n) => |f| == 50 && Get32(f, 38) == g && Get32(f, 42) == o && Get32(f, 46) == n
      case WriteData(g, o, d) =>
        |f| == 50 + |d| && Get32(f, 38) == g && Get32(f, 42) == o && Get32(f, 46) == |d| && f[50..] == d
      case ReadState => |f| == 38
      case WriteControl(a, d, n) => |f| == 46 && Get16(f, 38) == a && Get16(f, 40) == d && Get32(f, 42) == n
      case ReadWrite(g, o, n, d) =>
        && |f| == 54 + |d| && Get32(f, 38) == g && Get32(f, 42) == o && Get32(f, 46) == n
        && Get32(f, 50) == |d| && f[54..] == d
  {
    var f := RequestFrame(p, id, r);
    FrameView(p, id, r, f);
    DataAt(r, f);
  }

  /** One byte of control data: 9 bytes of data are announced, in a packet of 40 that holds 8. */
  lemma ControlDataMissing(p: Party, id: u32)
    ensures var f := RequestFrame(p, id, WriteControl(5, 0, 1));
      |f| == 46 && PacketLength(f) == 40 && HeaderView(f).dataLength == 9
  {
    FrameView(p, id, WriteControl(5, 0, 1), RequestFrame(p, id, WriteControl(5, 0, 1)));
  }

  lemma DataAt(r: Request, f: seq<byte>)
    requires Fits(r) && |f| == DATA + |Body(r)| && f[DATA..] == Body(r)
    ensures match r
      case ReadData(g, o, n) => Get32(f, 38) == g && Get32(f, 42) == o && Get32(f, 46) == n
      case WriteData(g, o, d) => Get32(f, 38) == g && Get32(f, 42) == o && Get32(f, 46) == |d| && f[50..] == d
      case WriteControl(a, d, n) => Get16(f, 38) == a && Get16(f, 40) == d && Get32(f, 42) == n
      case ReadWrite(g, o, n, d) =>
        Get32(f, 38) == g && Get32(f, 42) == o && Get32(f, 46) == n && Get32(f, 50) == |d| && f[54..] == d
      case _ => true
  {
    match r {
      case ReadData(g, o, n) =>
        Words3(f, g, o, n, []);
      case WriteData(g, o, d) =>
        Words3(f, g, o, |d|, d);
      case ReadWrite(g, o, n, d) =>
        Words4(f, g, o, n, |d|, d);
      case WriteControl(a, d, n) =>
        ControlWords(f, a, d, n);
      case _ =>
    }
  }

  lemma Words4(m: seq<byte>, a: u32, b: u32, c: u32, d: u32, rest: seq<byte>)
    requires |m| >= 54 + |rest| && m[DATA..54 + |rest|] == Le32(a) + Le32(b) + Le32(c) + Le32(d) + rest
    ensures Get32(m, 38) == a && Get32(m, 42) == b && Get32(m, 46) == c && Get32(m, 50) == d
    ensures m[54..54 + |rest|] == rest
  {
    var t := Le32(d) + rest;
    Associative(Le32(a) + Le32(b) + Le32(c), Le32(d), rest);
    Words3(m, a, b, c, t);
    assert m[50..54] == m[50..50 + |t|][..4] == Le32(d);
    assert m[54..54 + |rest|] == m[50..50 + |t|][4..] == rest;
    Le32Get32(m, 50, d);
  }

  lemma ControlWords(m: seq<byte>, a: u16, d: u16, n: u32)
    requires |m| >= 46 && m[DATA..46] == Le16(a) + Le16(d) + Le32(n)
    ensures Get16(m, 38) == a && Get16(m, 40) == d && Get32(m, 42) == n
  {
    var s := Le16(a) + Le16(d) + Le32(n);
    assert forall i :: 38 <= i < 46 ==> m[i] == m[DATA..46][i - 38] == s[i - 38];
    assert m[38..40] == s[0..2] == Le16(a);
    assert m[40..42] == s[2..4] == Le16(d);
    assert m[42..46] == s[4..8] == Le32(n);
    Le16Get16(m, 38, a);
    Le16Get16(m, 40, d);
    Le32Get32(m, 42, n);
  }

  lemma Words3(m: seq<byte>, a: u32, b: u32, c: u32, rest: seq<byte>)
    requires |m| >= 50 + |rest| && m[DATA..50 + |rest|] == Le32(a) + Le32(b) + Le32(c) + rest
    ensures Get32(m, 38) == a && Get32(m, 42) == b && Get32(m, 46) == c && m[50..50 + |rest|] == rest
  {
    var s := Le32(a) + Le32(b) + Le32(c) + rest;
    assert forall i :: 38 <= i < 50 + |rest| ==> m[i] == m[DATA..50 + |rest|][i - 38] == s[i - 38];
    assert m[38..42] == s[0..4] == Le32(a);
    assert m[42..46] == s[4..8] == Le32(b);
    assert m[46..50] == s[8..12] == Le32(c);
    assert m[50..50 + |rest|] == s[12..] == rest;
    Le32Get32(m, 38, a);
    Le32Get32(m, 42, b);
    Le32Get32(m, 46, c);
  }

  /**
    Whatever was in the receiver's buffer before, after the request arrived its
    packed view shows the header and the request that were encoded.
   */
  lemma RequestRoundTrip(p: Party, id: u32, r: Request, m: seq<byte>)
    requires Fits(r) && |m| == MAXDATALEN && RequestFrame(p, id, r) <= m
    ensures HeaderView(m) == RequestHeader(p, id, Command(r), DataLength(r))
    ensures PacketLength(m) == AMS_HEADER + |Body(r)|
    ensures RequestView(m) == Some(r)
  {
    FrameView(p, id, r, m);
    BodySize(r);
    BodyRoundTrip(r, m);
  }

  /** The buffer holds the command and the data part of this request. */
  predicate Holds(m: seq<byte>, r: Request) {
    |m| == MAXDATALEN && Fits(r) && Get16(m, 22) == Command(r)
    && DATA + |Body(r)| <= |m| && m[DATA..DATA + |Body(r)|] == Body(r)
  }

  lemma BodyRoundTrip(r: Request, m: seq<byte>)
    requires Holds(m, r)
    ensures RequestView(m) == Some(r)
  {
    if r.WriteData? {
      WriteDataHeld(r, m);
    } else if r.ReadWrite? {
      ReadWriteHeld(r, m);
    } else {
      SmallHeld(r, m);
    }
  }

  lemma WriteDataHeld(r: Request, m: seq<byte>)
    requires Holds(m, r) && r.WriteData?
    ensures RequestView(m) == Some(r)
  {
    WriteDataView(m, r.group, r.offset, r.data);
  }

  lemma ReadWriteHeld(r: Request, m: seq<byte>)
    requires Holds(m, r) && r.ReadWrite?
    ensures RequestView(m) == Some(r)
  {
    ReadWriteView(m, r.group, r.offset, r.length, r.data);
  }

  lemma SmallHeld(r: Request, m: seq<byte>)
    requires Holds(m, r) && !r.WriteData? && !r.ReadWrite?
    ensures RequestView(m) == Some(r)
  {
    match r {
      case ReadData(g, o, n) => ReadDataView(m, g, o, n);
      case WriteControl(a, d, n) => ControlView(m, a, d, n);
      case _ =>
    }
  }

  lemma ReadDataView(m: seq<byte>, g: u32, o: u32, n: u32)
    requires |m| == MAXDATALEN && m[DATA..50] == Le32(g) + Le32(o) + Le32(n)
    requires Get16(m, 22) == CMD_READ
    ensures RequestView(m) == Some(ReadData(g, o, n))
  {
    assert Le32(g) + Le32(o) + Le32(n) + [] == Le32(g) + Le32(o) + Le32(n);
    Words3(m, g, o, n, []);
  }

  lemma WriteDataView(m: seq<byte>, g: u32, o: u32, d: seq<byte>)
    requires |d| <= 8142 && |m| == MAXDATALEN && m[DATA..50 + |d|] == Le32(g) + Le32(o) + Le32(|d|) + d
    requires Get16(m, 22) == CMD_WRITE
    ensures RequestView(m) == Some(WriteData(g, o, d))
  {
    Words3(m, g, o, |d|, d);
  }

  lemma ReadWriteView(m: seq<byte>, g: u32, o: u32, n: u32, d: seq<byte>)
    requires |d| <= 8138 && |m| == MAXDATALEN
    requires m[DATA..54 + |d|] == Le32(g) + Le32(o) + Le32(n) + Le32(|d|) + d
    requires Get16(m, 22) == CMD_READ_WRITE
    ensures RequestView(m) == Some(ReadWrite(g, o, n, d))
  {
    Words4(m, g, o, n, |d|, d);
  }

  lemma ControlView(m: seq<byte>, a: u16, d: u16, n: u32)
    requires |m| == MAXDATALEN && m[DATA..46] == Le16(a) + Le16(d) + Le32(n)
    requires Get16(m, 22) == CMD_WRITE_CONTROL
    ensures RequestView(m) == Some(WriteControl(a, d, n))
  {
    ControlWords(m, a, d, n);
  }
}
