/** The synchronous calls of src/AdsAPI.c: find or make the connection, then one transaction on it. */
module AdsApi {
  import opened Bytes
  import opened AdsH
  import opened Kernel
  import opened Requests
  import opened Ads
  import opened Cache
  import opened AdsConnect
  import opened LocalAddress

  /** The addresses on the first request of a connection. */
  function NewParty(a: AmsAddr, me: NetId): Party {
    Party(a.netId, a.port, me, a.port)
  }

  lemma UpdateAgain(m: map<int, Socket>, fd: int, x: Socket, y: Socket)
    ensures m[fd := x][fd := y] == m[fd := y]
  {
  }

  /** What a call finds when it starts on a connection: `image` and `out` are `msgIn` and `msgOut`. */
  datatype Situation = Situation(flag: int, socket: Socket, timeout: int, party: Party,
                                 invokeId: int, answLen: int, image: seq<byte>, out: seq<byte>)

  ghost function SituationOf(k: Kernel, dc: ADSConnection): Situation
    requires Usable(k, dc)
    reads k, dc, dc.iface, dc.msgIn, dc.msgOut
  {
    Situation(dc.iface.error, k.sockets[dc.iface.sd], dc.iface.timeout, PartyOf(dc),
              dc.invokeId, dc.AnswLen, dc.msgIn[..], dc.msgOut[..])
  }

  /** What it finds on a connection just made. */
  function NewSituation(a: AmsAddr, me: NetId, s: Socket): Situation {
    Situation(0, s, 0, NewParty(a, me), 0, 0, Zeros(MAXDATALEN), Zeros(MAXDATALEN))
  }

  ghost predicate Buffers(b: Situation) {
    |b.image| == |b.out| == MAXDATALEN
  }

  /** The arguments of a read call; `hasBuffer` tells whether `pData` is not NULL. */
  datatype Arguments = Arguments(group: u32, offset: u32, length: u32, hasBuffer: bool)

  /** What a read call returns, and what the next call on the connection finds. */
  datatype ReadCall = ReadCall(ret: int, nRead: Option<u32>, copied: Copied, next: Situation)

  ghost function Reading(b: Situation, r: Arguments): (c: ReadCall)
    requires Buffers(b)
    ensures Buffers(c.next) && c.next.invokeId == b.invokeId + 1
    ensures c.next.flag == b.flag && c.next.timeout == b.timeout && c.next.party == b.party
  {
    var frame := RequestFrame(b.party, ToU32(b.invokeId + 1), ReadData(r.group, r.offset, r.length));
    var x := Exchange(b.flag, b.socket, b.timeout, frame, b.image);
    var next := b.(socket := x.socket, invokeId := b.invokeId + 1, image := x.image, out := Put(b.out, 0, frame));
    if x.sent then
      var o := DecodeRead(x.rc, x.error, x.image, r.length, r.hasBuffer);
      ReadCall(o.ret, o.nRead, o.copied, next.(answLen := o.answLen))
    else ReadCall(TranslateWrError(x.rc), None, NoCopy, next)
  }

  /**
    The first request on a new connection: it goes to the address asked for, comes
    from the local id and the same port, has invokeId 1 and waits without a limit.
   */
  lemma FirstRequest(a: AmsAddr, me: NetId, s: Socket, r: Arguments) returns (f: seq<byte>)
    requires s.sends == []
    ensures var c := Reading(NewSituation(a, me, s), r);
      c.next.socket.sent == s.sent + f && c.next.invokeId == 1 && c.next.timeout == 0
    ensures |f| == 50 && f[6..12] == a.netId && Get16(f, 12) == a.port && f[14..20] == me && Get16(f, 20) == a.port
    ensures Get16(f, 22) == 2 && Get32(f, 34) == 1
    ensures Get32(f, 38) == r.group && Get32(f, 42) == r.offset && Get32(f, 46) == r.length
  {
    var q := ReadData(r.group, r.offset, r.length);
    f := RequestFrame(NewParty(a, me), 1, q);
    RequestHeaderOnTheWire(NewParty(a, me), 1, q);
    RequestDataOnTheWire(NewParty(a, me), 1, q);
  }

  method ReadOn(k: Kernel, dc: ADSConnection, r: Arguments, ghost c: ReadCall)
    returns (ret: int, nRead: Option<u32>, copied: Copied)
    requires Usable(k, dc) && c == Reading(SituationOf(k, dc), r)
    modifies k`sockets, k`clock, dc`invokeId, dc`AnswLen, dc.msgIn, dc.msgOut
    ensures ret == c.ret && nRead == c.nRead && copied == c.copied
    ensures k.sockets == old(k.sockets)[dc.iface.sd := c.next.socket]
    ensures SituationOf(k, dc) == c.next
  {
    ghost var frame := RequestFrame(PartyOf(dc), ToU32(dc.invokeId + 1), ReadData(r.group, r.offset, r.length));
    assert frame + [] == frame;
    ret, nRead, copied := ReadBytes(k, dc, r.group, r.offset, r.length, r.hasBuffer);
  }

  /** What a call on a listed connection finds. */
  ghost function FoundAt(l: ConnectionList, k: Kernel, i: nat): Situation
    requires l.Valid(k) && i < |l.list|
    reads l, k, l.list, l.Interfaces(), set dc | dc in l.list :: dc.msgIn, set dc | dc in l.list :: dc.msgOut
  {
    assert Alive(l.list[i], l.freed, k.sockets.Keys);
    SituationOf(k, l.list[i])
  }

  /** The descriptor a call will use and what it finds there, or the error that ends it. */
  datatype Target = Failing(error: int) | Using(fd: int, found: Situation)

  /**
    A listed connection is used as it is; otherwise the call is the first one on
    a new connection, with invokeId 1 and no timeout; and when that cannot be
    made nothing is sent.
   */
  ghost function TargetOf(l: ConnectionList, k: Kernel, a: AmsAddr, o: Attempt, s: Socket, me: NetId): Target
    requires l.Valid(k)
    reads l, k, l.list, l.Interfaces(), set dc | dc in l.list :: dc.msgIn, set dc | dc in l.list :: dc.msgOut
  {
    var i := Find(l.Entries(), a);
    if i < |l.list| then Using(l.list[i].iface.sd, FoundAt(l, k, i))
    else if o.Connected? then Using(o.fd, NewSituation(a, me, s))
    else Failing(AttemptError(o))
  }

  /** When the call has to connect, `o` is how that ends and `me` the local id that is known then. */
  ghost predicate Starts(l: ConnectionList, k: Kernel, m: MeAddress, a: AmsAddr, e: Environment, o: Attempt, me: NetId)
    reads l, l.Interfaces(), k, m
  {
    Misses(l.Abstract(k), a) ==>
      Defined(e, m.Contents()) && o == AttemptOf(e, m.Contents()) && me == MeAfter(e, m.Contents()).netId
  }

  /** The first half: the connection that the call will use. */
  method Connection(l: ConnectionList, k: Kernel, m: MeAddress, a: AmsAddr, e: Environment, s: Socket,
                    ghost o: Attempt, ghost me: NetId)
    returns (dc: ADSConnection?, adsError: int)
    requires l.Valid(k) && Possible(l.Abstract(k), Get(a, o)) && Starts(l, k, m, a, e, o, me)
    modifies l`list, l`ptr, k`sockets, m
    ensures l.Valid(k) && l.Abstract(k) == Apply(old(l.Abstract(k)), Get(a, o))
    ensures dc != null ==> old(Find(l.Entries(), a)) < |l.list| && dc == l.list[old(Find(l.Entries(), a))]
    ensures dc == null ==> old(TargetOf(l, k, a, o, s, me)) == Failing(adsError)
    ensures dc != null ==>
      && Usable(k, dc) && (dc in old(l.list) || (fresh(dc) && fresh(dc.msgIn) && fresh(dc.msgOut)))
      && old(TargetOf(l, k, a, o, s, me)) == Using(dc.iface.sd, SituationOf(k, dc))
      && k.sockets == old(k.sockets)[dc.iface.sd := k.sockets[dc.iface.sd]]
  {
    ghost var i, n, t := Find(l.Entries(), a), |l.list|, TargetOf(l, k, a, o, s, me);
    dc, adsError := l.SocketGet(k, m, a, e, s, o);
    if dc != null {
      assert Alive(dc, l.freed, k.sockets.Keys);
      if i == n {
        assert t == Using(o.fd, NewSituation(a, me, s));
        assert SituationOf(k, dc) == NewSituation(a, me, s);
      }
    }
  }

  /** What a read call has done: the error of the connection, or one transaction on the connection number `i`. */
  ghost predicate Done(l: ConnectionList, k: Kernel, before: map<int, Socket>, t: Target, i: nat, r: Arguments,
                       ret: int, nRead: Option<u32>, copied: Copied)
    requires l.Valid(k)
    reads l, k, l.list, l.Interfaces(), set dc | dc in l.list :: dc.msgIn, set dc | dc in l.list :: dc.msgOut
  {
    match t
    case Failing(error) => ret == error && nRead == None && copied == NoCopy
    case Using(fd, found) =>
      && Buffers(found)
      && var c := Reading(found, r);
      && ret == c.ret && nRead == c.nRead && copied == c.copied
      && k.sockets == before[fd := c.next.socket]
      && i < |l.list| && FoundAt(l, k, i) == c.next
  }

  /** A transaction changes nothing that the list depends on. */
  method ReadKeepsList(l: ConnectionList, k: Kernel, dc: ADSConnection, r: Arguments, ghost c: ReadCall)
    returns (ret: int, nRead: Option<u32>, copied: Copied)
    requires l.Valid(k) && Usable(k, dc) && c == Reading(SituationOf(k, dc), r)
    modifies k`sockets, k`clock, dc`invokeId, dc`AnswLen, dc.msgIn, dc.msgOut
    ensures l.Valid(k) && l.Abstract(k) == old(l.Abstract(k))
    ensures ret == c.ret && nRead == c.nRead && copied == c.copied
    ensures k.sockets == old(k.sockets)[dc.iface.sd := c.next.socket] && SituationOf(k, dc) == c.next
  {
    ret, nRead, copied := ReadOn(k, dc, r, c);
  }

  /** The second half of a call: one transaction on a listed connection. */
  method ReadListed(l: ConnectionList, k: Kernel, dc: ADSConnection, r: Arguments,
                    ghost before: map<int, Socket>, ghost t: Target, ghost i: nat)
    returns (ret: int, nRead: Option<u32>, copied: Copied)
    requires l.Valid(k) && Usable(k, dc) && i < |l.list| && dc == l.list[i]
    requires t == Using(dc.iface.sd, SituationOf(k, dc)) && k.sockets == before[dc.iface.sd := k.sockets[dc.iface.sd]]
    modifies k`sockets, k`clock, dc`invokeId, dc`AnswLen, dc.msgIn, dc.msgOut
    ensures l.Valid(k) && l.Abstract(k) == old(l.Abstract(k))
    ensures Done(l, k, before, t, i, r, ret, nRead, copied)
  {
    ghost var c := Reading(t.found, r);
    UpdateAgain(before, t.fd, k.sockets[t.fd], c.next.socket);
    ret, nRead, copied := ReadKeepsList(l, k, dc, r, c);
  }

  /** `AdsSyncReadReqEx2`. */
  method SyncReadReq(l: ConnectionList, k: Kernel, m: MeAddress, a: AmsAddr, e: Environment, s: Socket,
                     ghost o: Attempt, ghost me: NetId, r: Arguments)
    returns (ret: int, nRead: Option<u32>, copied: Copied)
    requires l.Valid(k) && Possible(l.Abstract(k), Get(a, o)) && Starts(l, k, m, a, e, o, me)
    modifies l`list, l`ptr, k`sockets, k`clock, m
    modifies set dc | dc in l.list, set dc | dc in l.list :: dc.msgIn, set dc | dc in l.list :: dc.msgOut
    ensures l.Valid(k) && l.Abstract(k) == Apply(old(l.Abstract(k)), Get(a, o))
    ensures Done(l, k, old(k.sockets), old(TargetOf(l, k, a, o, s, me)), old(Find(l.Entries(), a)),
                 r, ret, nRead, copied)
  {
    ghost var before, t, i := k.sockets, TargetOf(l, k, a, o, s, me), Find(l.Entries(), a);
    var dc, adsError := Connection(l, k, m, a, e, s, o, me);
    if dc == null {
      return adsError, None, NoCopy;
    }
    ret, nRead, copied := ReadListed(l, k, dc, r, before, t, i);
  }
}
