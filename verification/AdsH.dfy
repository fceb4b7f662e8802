/** Layouts and records of src/ads.h and src/AdsDEF.h. */
module AdsH {
  import opened Bytes

  const MAXDATALEN := 8192
  const TCP_HEADER := 6      // sizeof(AMS_TCPheader)
  const AMS_HEADER := 32     // sizeof(AMSheader)
  const DATA := 38           // offset of the ADS data in a packet

  const AMSPORT_R0_PLC_RTS1 := 801

  const CMD_READ_DEV_INFO := 1
  const CMD_READ := 2
  const CMD_WRITE := 3
  const CMD_READ_STATE := 4
  const CMD_WRITE_CONTROL := 5
  const CMD_READ_WRITE := 9

  type NetId = s: seq<byte> | |s| == 6 witness [0, 0, 0, 0, 0, 0]

  datatype AmsAddr = AmsAddr(netId: NetId, port: u16)

  datatype AmsHeader = AmsHeader(
    targetId: NetId, targetPort: u16, sourceId: NetId, sourcePort: u16,
    commandId: u16, stateFlags: u16, dataLength: u32, errorCode: u32, invokeId: u32)

  /** Bytes 0..21 of a packet: the TCP header and the two addresses. */
  function AddressBytes(length: u32, h: AmsHeader): (s: seq<byte>)
    ensures |s| == 22
  {
    Le16(0) + Le32(length) + h.targetId + Le16(h.targetPort) + h.sourceId + Le16(h.sourcePort)
  }

  /** Bytes 22..37 of a packet. */
  function CommandBytes(h: AmsHeader): (s: seq<byte>)
    ensures |s| == 16
  {
    Le16(h.commandId) + Le16(h.stateFlags) + Le32(h.dataLength) + Le32(h.errorCode) + Le32(h.invokeId)
  }

  /** The 38 bytes of the two packed headers of a packet. */
  function HeaderBytes(length: u32, h: AmsHeader): (s: seq<byte>)
    ensures |s| == DATA
  {
    AddressBytes(length, h) + CommandBytes(h)
  }

  /** `adsHeader.length` of the packet at the start of a buffer. */
  function PacketLength(p: seq<byte>): u32
    requires |p| >= TCP_HEADER
  {
    Get32(p, 2)
  }

  /** The `amsHeader` member as the packed structure sees it. */
  function HeaderView(p: seq<byte>): AmsHeader
    requires |p| >= DATA
  {
    AmsHeader(p[6..12], Get16(p, 12), p[14..20], Get16(p, 20), Get16(p, 22), Get16(p, 24),
              Get32(p, 26), Get32(p, 30), Get32(p, 34))
  }

  lemma AddressRoundTrip(length: u32, h: AmsHeader, p: seq<byte>)
    requires |p| >= DATA && p[..22] == AddressBytes(length, h)
    ensures PacketLength(p) == length && Get16(p, 0) == 0
    ensures p[6..12] == h.targetId && Get16(p, 12) == h.targetPort
    ensures p[14..20] == h.sourceId && Get16(p, 20) == h.sourcePort
  {
    var s := AddressBytes(length, h);
    assert forall i :: 0 <= i < 22 ==> p[i] == s[i];
    assert p[2..6] == s[2..6] == Le32(length);
    Le32Get32(p, 2, length);
    assert p[6..12] == s[6..12] == h.targetId;
    assert p[12..14] == s[12..14] == Le16(h.targetPort);
    Le16Get16(p, 12, h.targetPort);
    assert p[14..20] == s[14..20] == h.sourceId;
    assert p[20..22] == s[20..22] == Le16(h.sourcePort);
    Le16Get16(p, 20, h.sourcePort);
  }

  lemma CommandRoundTrip(h: AmsHeader, p: seq<byte>)
    requires |p| >= DATA && p[22..DATA] == CommandBytes(h)
    ensures Get16(p, 22) == h.commandId && Get16(p, 24) == h.stateFlags
    ensures Get32(p, 26) == h.dataLength && Get32(p, 30) == h.errorCode && Get32(p, 34) == h.invokeId
  {
    var s := CommandBytes(h);
    assert forall i :: 22 <= i < DATA ==> p[i] == p[22..DATA][i - 22] == s[i - 22];
    assert p[22..24] == s[0..2] == Le16(h.commandId);
    Le16Get16(p, 22, h.commandId);
    assert p[24..26] == s[2..4] == Le16(h.stateFlags);
    Le16Get16(p, 24, h.stateFlags);
    assert p[26..30] == s[4..8] == Le32(h.dataLength);
    Le32Get32(p, 26, h.dataLength);
    assert p[30..34] == s[8..12] == Le32(h.errorCode);
    Le32Get32(p, 30, h.errorCode);
    assert p[34..38] == s[12..16] == Le32(h.invokeId);
    Le32Get32(p, 34, h.invokeId);
  }

  /** The packed view of a packet that starts with these header bytes shows that header. */
  lemma HeaderRoundTrip(length: u32, h: AmsHeader, p: seq<byte>)
    requires |p| >= DATA && p[..DATA] == HeaderBytes(length, h)
    ensures PacketLength(p) == length && HeaderView(p) == h && Get16(p, 0) == 0
  {
    assert p[..22] == p[..DATA][..22] == AddressBytes(length, h);
    assert p[22..DATA] == p[..DATA][22..] == CommandBytes(h);
    AddressRoundTrip(length, h, p);
    CommandRoundTrip(h, p);
  }

  /** A packet's first 38 bytes are determined by what its packed view shows. */
  lemma HeaderDetermined(p: seq<byte>)
    requires |p| >= DATA && Get16(p, 0) == 0
    ensures p[..DATA] == HeaderBytes(PacketLength(p), HeaderView(p))
  {
    var h := HeaderView(p);
    Le16Get16(p, 0, 0);
    Le32Get32(p, 2, PacketLength(p));
    Le16Get16(p, 12, h.targetPort);
    Le16Get16(p, 20, h.sourcePort);
    Le16Get16(p, 22, h.commandId);
    Le16Get16(p, 24, h.stateFlags);
    Le32Get32(p, 26, h.dataLength);
    Le32Get32(p, 30, h.errorCode);
    Le32Get32(p, 34, h.invokeId);
    assert p[..22] == p[0..2] + p[2..6] + p[6..12] + p[12..14] + p[14..20] + p[20..22];
    assert p[22..38] == p[22..24] + p[24..26] + p[26..30] + p[30..34] + p[34..38];
    assert p[..38] == p[..22] + p[22..38];
  }

  /** `ADSInterface`: a descriptor with its error flag and timeout. */
  class ADSInterface {
    var sd: int
    var error: int
    var timeout: int
    const me: NetId
    const AMSport: int

    constructor (sd: int, me: NetId, port: int)
      ensures this.sd == sd && this.me == me && AMSport == port && error == 0 && timeout == 0
    {
      this.sd, this.me, AMSport, error, timeout := sd, me, port, 0, 0;
    }
  }

  /** `ADSConnection`: an interface with the two message buffers and the peer's address. */
  class ADSConnection {
    const iface: ADSInterface
    var AnswLen: int
    var invokeId: int
    const msgIn: array<byte>
    const msgOut: array<byte>
    const partner: NetId
    const AMSport: int

    ghost predicate Valid()
    {
      msgIn.Length == MAXDATALEN && msgOut.Length == MAXDATALEN && msgIn != msgOut
    }

    constructor (di: ADSInterface, partner: NetId, port: int)
      ensures Valid() && fresh(msgIn) && fresh(msgOut)
      ensures iface == di && this.partner == partner && AMSport == port
      ensures AnswLen == 0 && invokeId == 0
      ensures msgIn[..] == Zeros(MAXDATALEN) && msgOut[..] == Zeros(MAXDATALEN)
    {
      iface, this.partner, AMSport, AnswLen, invokeId := di, partner, port, 0, 0;
      msgIn := new byte[MAXDATALEN](_ => 0);
      msgOut := new byte[MAXDATALEN](_ => 0);
      new;
      assert msgIn[..] == Zeros(MAXDATALEN);
      assert msgOut[..] == Zeros(MAXDATALEN);
    }
  }
}
