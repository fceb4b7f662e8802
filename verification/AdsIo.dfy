/** Framed reading and writing: src/ads_io.c. */
module AdsIo {
  import opened Bytes
  import opened AdsH
  import opened Kernel

  const OVERSIZED := 0xe

  // ---------------------------------------------------------------- specification

  /** `t.tv_sec` and `t.tv_usec` of a packet read, added up in microseconds (NULL for 0). */
  function BudgetOf(timeout: int): Budget {
    if timeout == 0 then Forever
    else
      var sec := if timeout >= 0 then timeout / 1000 else -(-timeout / 1000);
      var ms := timeout - 1000 * sec;
      Micros(sec * 1_000_000 + ms * 1_000_000)
  }

  /** The time until the first `n` events have happened. */
  function Waits(input: seq<Event>, n: nat): nat
    requires n <= |input|
  {
    if n == 0 then 0 else Waits(input, n - 1) + input[n - 1].wait
  }

  /** The bytes of the first `n` events. */
  function Data(input: seq<Event>, n: nat): (s: seq<byte>)
    requires n <= |input|
    ensures |s| == n
  {
    seq(n, i requires 0 <= i < n => if input[i].what.Arrival? then input[i].what.data else 0)
  }

  /** The next `n` events are bytes that all arrive within the budget. */
  ghost predicate Arrives(input: seq<Event>, budget: Budget, n: nat) {
    n == 0
    || (n <= |input|
        && (forall i :: 0 <= i < n ==> input[i].what.Arrival?)
        && (budget.Forever? || Waits(input, n) <= budget.us))
  }

  datatype ByteResult = ByteResult(rc: int, error: int, data: byte, input: seq<Event>, budget: Budget, waited: nat)

  /** One call of `_ADSReadByte`. */
  function NextByte(input: seq<Event>, budget: Budget): ByteResult {
    if budget.Micros? && budget.us < 0 then ByteResult(0, EINVAL, 0, input, budget, 0)
    else if input == [] then ByteResult(-2, 0, 0, input, budget, 0)
    else
      var e := input[0];
      if budget.Micros? && budget.us < e.wait then
        ByteResult(-1, 0, 0, [e.(wait := e.wait - budget.us)] + input[1..], Micros(0), budget.us)
      else
        var left := Spend(budget, e.wait);
        match e.what
        case Arrival(d) => ByteResult(1, 0, d, input[1..], left, e.wait)
        case PeerShutdown => ByteResult(-2, 0, 0, input[1..], left, e.wait)
        case RecvError(n) => ByteResult(0, n, 0, input[1..], left, e.wait)
        case SelectError(n) => ByteResult(0, n, 0, input[1..], left, e.wait)
  }

  /** The buffer after `bytes` were stored one by one at the clamped index. */
  function Clamped(image: seq<byte>, bytes: seq<byte>): (r: seq<byte>)
    requires |image| == MAXDATALEN
    ensures |r| == MAXDATALEN
  {
    if |bytes| <= MAXDATALEN then bytes + image[|bytes|..]
    else bytes[..MAXDATALEN - 1] + [bytes[|bytes| - 1]]
  }

  /** The buffer after a whole packet was read: an oversized one is patched. */
  function Received(image: seq<byte>, packet: seq<byte>): (r: seq<byte>)
    requires |image| == MAXDATALEN
    ensures |r| == MAXDATALEN
  {
    var c := Clamped(image, packet);
    if |packet| <= MAXDATALEN then c
    else Put(Put(c, 2, Le32(MAXDATALEN - TCP_HEADER)), DATA, Le32(OVERSIZED) + Le32(0))
  }

  /** `taken` counts the bytes taken off the stream. */
  datatype ReadResult = ReadResult(rc: int, error: int, taken: nat, input: seq<Event>, elapsed: nat, image: seq<byte>)

  /** A read that stops after `r` bytes because the next one does not come. */
  function Stopped(input: seq<Event>, budget: Budget, r: nat, image: seq<byte>): (res: ReadResult)
    requires r <= |input| && |image| == MAXDATALEN
    ensures |res.image| == MAXDATALEN
  {
    var stop := NextByte(input[r..], Spend(budget, Waits(input, r)));
    ReadResult(stop.rc, stop.error, r, stop.input, Waits(input, r) + stop.waited, Clamped(image, Data(input, r)))
  }

  /** The read of a packet of which `r` bytes have been stored. */
  ghost function ReadAfter(input: seq<Event>, budget: Budget, image: seq<byte>, r: nat): (res: ReadResult)
    requires |image| == MAXDATALEN && r <= |input|
    ensures |res.image| == MAXDATALEN
    decreases |input| - r
  {
    if TCP_HEADER <= r && r == TCP_HEADER + PacketLength(Data(input, TCP_HEADER)) then
      ReadResult(r, if r > MAXDATALEN then OVERSIZED else 0, r, input[r..],
                 Waits(input, r), Received(image, Data(input, r)))
    else if r < |input| && Arrives(input, budget, r + 1) then ReadAfter(input, budget, image, r + 1)
    else Stopped(input, budget, r, image)
  }

  /** One call of `_ADSReadPacket` on an interface without its error flag set. */
  ghost function Read(input: seq<Event>, timeout: int, image: seq<byte>): (res: ReadResult)
    requires |image| == MAXDATALEN
    ensures |res.image| == MAXDATALEN
  {
    ReadAfter(input, BudgetOf(timeout), image, 0)
  }

  /** The same for an interface whose error flag may be set. */
  ghost function ReadIface(flag: int, input: seq<Event>, timeout: int, image: seq<byte>): (res: ReadResult)
    requires |image| == MAXDATALEN
    ensures |res.image| == MAXDATALEN
  {
    if flag != 0 then ReadResult(-11, 0, 0, input, 0, image) else Read(input, timeout, image)
  }

  datatype WriteResult = WriteResult(rc: int, error: int, socket: Socket)

  /** One call of `_ADSWritePacket` with a packet of these bytes. */
  function Write(flag: int, s: Socket, packet: seq<byte>): WriteResult {
    if flag != 0 then WriteResult(-4, 0, s)
    else if s.sends == [] then WriteResult(1, 0, s.(sent := s.sent + packet))
    else match s.sends[0]
      case SendError(e) => WriteResult(0, e, s.(sends := s.sends[1..]))
      case Accept(limit, e) =>
        if limit < |packet| then
          WriteResult(0, e, s.(sends := s.sends[1..], sent := s.sent + packet[..limit]))
        else
          WriteResult(1, 0, s.(sends := s.sends[1..], sent := s.sent + packet))
  }

  // ---------------------------------------------------------------- lemmas for the loops

  lemma {:induction false} WaitsMonotone(input: seq<Event>, m: nat, n: nat)
    requires m <= n <= |input|
    ensures Waits(input, m) <= Waits(input, n)
    decreases n
  {
    if m < n {
      WaitsMonotone(input, m, n - 1);
    }
  }

  lemma ArrivesPrefix(input: seq<Event>, budget: Budget, m: nat, n: nat)
    requires m <= n && Arrives(input, budget, n)
    ensures Arrives(input, budget, m)
  {
    if m > 0 {
      WaitsMonotone(input, m, n);
    }
  }

  /** One more byte arrives exactly when the next `_ADSReadByte` returns 1. */
  lemma NextArrives(input: seq<Event>, budget: Budget, r: nat)
    requires r <= |input| && Arrives(input, budget, r)
    ensures var n := NextByte(input[r..], Spend(budget, Waits(input, r)));
      && (n.rc == 1 <==> Arrives(input, budget, r + 1))
      && (n.rc == 1 ==> r < |input| && Data(input, r + 1) == Data(input, r) + [n.data]
                        && n.input == input[r + 1..]
                        && n.waited == input[r].wait
                        && n.budget == Spend(budget, Waits(input, r + 1)))
  {
  }

  lemma ClampedStep(image: seq<byte>, bytes: seq<byte>, x: byte)
    requires |image| == MAXDATALEN
    ensures Clamped(image, bytes + [x])
         == Clamped(image, bytes)[(if |bytes| < MAXDATALEN then |bytes| else MAXDATALEN - 1) := x]
  {
  }

  /** After `r` bytes the packet is not longer than it says: `r` does not pass its end. */
  predicate Within(input: seq<Event>, r: nat) {
    r <= |input| && (TCP_HEADER <= r ==> r <= TCP_HEADER + PacketLength(Data(input, TCP_HEADER)))
  }

  predicate Complete(input: seq<Event>, r: nat)
    requires r <= |input|
  {
    TCP_HEADER <= r && r == TCP_HEADER + PacketLength(Data(input, TCP_HEADER))
  }

  /** The bytes that have arrived can be skipped. */
  lemma {:induction false} ReadSkips(input: seq<Event>, budget: Budget, image: seq<byte>, r: nat)
    requires |image| == MAXDATALEN && Within(input, r) && Arrives(input, budget, r)
    ensures ReadAfter(input, budget, image, 0) == ReadAfter(input, budget, image, r)
    decreases r
  {
    if r > 0 {
      ArrivesPrefix(input, budget, r - 1, r);
      ReadSkips(input, budget, image, r - 1);
    }
  }

  /** A read either gets its whole packet or stops where the bytes stop coming. */
  lemma {:induction false} CasesAfter(input: seq<Event>, budget: Budget, image: seq<byte>, r: nat) returns (e: nat)
    requires |image| == MAXDATALEN && Within(input, r) && Arrives(input, budget, r)
    ensures Within(input, e) && Arrives(input, budget, e)
    ensures ReadAfter(input, budget, image, r) == ReadAfter(input, budget, image, e)
    ensures !Complete(input, e) ==> !Arrives(input, budget, e + 1)
    decreases |input| - r
  {
    e := r;
    if !Complete(input, r) && r < |input| && Arrives(input, budget, r + 1) {
      e := CasesAfter(input, budget, image, r + 1);
    }
  }

  lemma ReadCases(input: seq<Event>, timeout: int, image: seq<byte>) returns (r: nat)
    requires |image| == MAXDATALEN
    ensures Within(input, r) && Arrives(input, BudgetOf(timeout), r)
    ensures if Complete(input, r) then
        Read(input, timeout, image)
          == ReadResult(r, if r > MAXDATALEN then OVERSIZED else 0, r, input[r..],
                        Waits(input, r), Received(image, Data(input, r)))
      else
        !Arrives(input, BudgetOf(timeout), r + 1)
        && Read(input, timeout, image) == Stopped(input, BudgetOf(timeout), r, image)
        && Read(input, timeout, image).rc != 1
  {
    r := CasesAfter(input, BudgetOf(timeout), image, 0);
    NextArrives(input, BudgetOf(timeout), r);
  }

  // ---------------------------------------------------------------- the program

  /** `_ADSReadByte`, storing into `b[at]`. */
  method ReadByte(k: Kernel, rfd: int, b: array<byte>, at: nat, pt: Budget)
    returns (rc: int, error: int, left: Budget)
    requires rfd in k.sockets && at < b.Length
    modifies k`sockets, k`clock, b
    ensures var s := old(k.sockets)[rfd]; var r := NextByte(s.input, pt);
      && rc == r.rc && error == r.error && left == r.budget
      && k.sockets == old(k.sockets)[rfd := s.(input := r.input)]
      && k.clock == old(k.clock) + r.waited
      && b[..] == if r.rc == 1 then old(b[..])[at := r.data] else old(b[..])
  {
    var errno, data;
    rc, errno, left := k.Select(rfd, pt);
    if rc == -1 {
      return 0, errno, left;
    } else if rc == 0 {
      return -1, 0, left;
    }
    rc, errno, data := k.Recv(rfd);
    if rc == 0 {
      return -2, 0, left;
    } else if rc == -1 {
      return 0, errno, left;
    }
    b[at] := data;
    return 1, 0, left;
  }

  /** The state in which a packet read started. */
  datatype Start = Start(sockets: map<int, Socket>, clock: int, image: seq<byte>, fd: int, budget: Budget) {
    ghost predicate Valid() { fd in sockets && |image| == MAXDATALEN }
    ghost function Input(): seq<Event> requires Valid() { sockets[fd].input }
    ghost function After(input: seq<Event>): map<int, Socket> requires Valid() {
      sockets[fd := sockets[fd].(input := input)]
    }
  }

  /** What the read has done after `res` bytes. */
  ghost predicate Progress(k: Kernel, b: array<byte>, pt: Budget, s: Start, res: int)
    reads k, b
  {
    && s.Valid()
    && 0 <= res <= |s.Input()|
    && Arrives(s.Input(), s.budget, res)
    && k.sockets == s.After(s.Input()[res..])
    && k.clock == s.clock + Waits(s.Input(), res)
    && pt == Spend(s.budget, Waits(s.Input(), res))
    && b[..] == Clamped(s.image, Data(s.Input(), res))
  }

  /** What the read has done when the byte after `res` bytes did not come. */
  ghost predicate Halted(k: Kernel, b: array<byte>, rc: int, error: int, s: Start, res: int)
    reads k, b
  {
    && s.Valid()
    && 0 <= res <= |s.Input()|
    && !Arrives(s.Input(), s.budget, res + 1)
    && var stop := Stopped(s.Input(), s.budget, res, s.image);
    && rc == stop.rc && error == stop.error
    && k.sockets == s.After(stop.input)
    && k.clock == s.clock + stop.elapsed
    && b[..] == stop.image
  }

  /** One round of either loop of `_ADSReadPacket`. */
  method ReadNext(k: Kernel, rfd: int, b: array<byte>, res: nat, pt: Budget, ghost s: Start)
    returns (rc: int, error: int, left: Budget)
    requires b.Length == MAXDATALEN && rfd == s.fd && Progress(k, b, pt, s, res)
    modifies k`sockets, k`clock, b
    ensures rc == 1 ==> Progress(k, b, left, s, res + 1)
    ensures rc != 1 ==> Halted(k, b, rc, error, s, res)
  {
    var at := if res < MAXDATALEN then res else MAXDATALEN - 1;
    NextArrives(s.Input(), s.budget, res);
    ClampedStep(s.image, Data(s.Input(), res), NextByte(s.Input()[res..], pt).data);
    assert k.sockets[s.fd].input == s.Input()[res..];
    rc, error, left := ReadByte(k, rfd, b, at, pt);
  }

  /** The length field does not change while the rest of the packet is stored. */
  lemma LengthStable(image: seq<byte>, input: seq<Event>, n: nat)
    requires |image| == MAXDATALEN && TCP_HEADER <= n <= |input|
    ensures PacketLength(Clamped(image, Data(input, n))) == PacketLength(Data(input, TCP_HEADER))
  {
  }

  /** A read that halts before the header, or before the packet, is complete. */
  lemma HaltedIsRead(s: Start, timeout: int, res: nat)
    requires s.Valid() && s.budget == BudgetOf(timeout) && Within(s.Input(), res) && !Complete(s.Input(), res)
    requires Arrives(s.Input(), s.budget, res) && !Arrives(s.Input(), s.budget, res + 1)
    ensures Read(s.Input(), timeout, s.image) == Stopped(s.Input(), s.budget, res, s.image)
  {
    ReadSkips(s.Input(), s.budget, s.image, res);
  }

  /** A read that gets the whole packet. */
  lemma {:induction false} CompleteIsRead(s: Start, timeout: int, total: nat)
    requires s.Valid() && s.budget == BudgetOf(timeout) && total <= |s.Input()| && Complete(s.Input(), total)
    requires Arrives(s.Input(), s.budget, total)
    ensures Read(s.Input(), timeout, s.image)
         == ReadResult(total, if total > MAXDATALEN then OVERSIZED else 0, total, s.Input()[total..],
                       Waits(s.Input(), total), Received(s.image, Data(s.Input(), total)))
  {
    ReadSkips(s.Input(), s.budget, s.image, total);
  }

  /** The patch of an oversized packet. */
  method Patch(b: array<byte>)
    requires b.Length == MAXDATALEN
    modifies b
    ensures b[..] == Put(Put(old(b[..]), 2, Le32(MAXDATALEN - TCP_HEADER)), DATA, Le32(OVERSIZED) + Le32(0))
  {
    Store(b, 2, Le32(MAXDATALEN - TCP_HEADER));
    Store(b, TCP_HEADER + AMS_HEADER, Le32(OVERSIZED) + Le32(0));
  }

  /** The first loop of `_ADSReadPacket`: the TCP header. */
  method FillHeader(k: Kernel, rfd: int, b: array<byte>, pt: Budget, ghost s: Start)
    returns (rc: int, error: int, res: nat, left: Budget)
    requires b.Length == MAXDATALEN && rfd == s.fd && Progress(k, b, pt, s, 0)
    modifies k`sockets, k`clock, b
    ensures rc == 1 ==> res == TCP_HEADER && Progress(k, b, left, s, TCP_HEADER)
    ensures rc != 1 ==> res < TCP_HEADER && Halted(k, b, rc, error, s, res) && Arrives(s.Input(), s.budget, res)
  {
    res := 0;
    rc, error, left := 1, 0, pt;
    while res < TCP_HEADER
      invariant res <= TCP_HEADER && rc == 1 && Progress(k, b, left, s, res)
    {
      rc, error, left := ReadNext(k, rfd, b, res, left, s);
      if rc != 1 {
        return;
      }
      res := res + 1;
    }
  }

  /** The second loop: the rest, as long as the length field in the buffer says. */
  method FillRest(k: Kernel, rfd: int, b: array<byte>, pt: Budget, ghost s: Start, ghost total: int)
    returns (rc: int, error: int, res: nat)
    requires b.Length == MAXDATALEN && rfd == s.fd && Progress(k, b, pt, s, TCP_HEADER)
    requires total == TCP_HEADER + PacketLength(Data(s.Input(), TCP_HEADER))
    modifies k`sockets, k`clock, b
    ensures rc == 1 ==> res == total && 0 <= total <= |s.Input()|
                        && Progress(k, b, Spend(s.budget, Waits(s.Input(), total)), s, total)
    ensures rc != 1 ==>
      TCP_HEADER <= res < total && Halted(k, b, rc, error, s, res) && Arrives(s.Input(), s.budget, res)
  {
    res := TCP_HEADER;
    rc, error := 1, 0;
    var left := pt;
    LengthStable(s.image, s.Input(), res);
    while res < TCP_HEADER + PacketLength(b[..])
      invariant TCP_HEADER <= res <= total && rc == 1 && Progress(k, b, left, s, res)
      invariant TCP_HEADER + PacketLength(b[..]) == total
    {
      rc, error, left := ReadNext(k, rfd, b, res, left, s);
      if rc != 1 {
        return;
      }
      res := res + 1;
      LengthStable(s.image, s.Input(), res);
    }
  }

  /** Both loops; `res` counts the bytes read. */
  method Fill(k: Kernel, rfd: int, b: array<byte>, timeout: int) returns (rc: int, error: int, res: nat)
    requires b.Length == MAXDATALEN && rfd in k.sockets
    modifies k`sockets, k`clock, b
    ensures var s := Start(old(k.sockets), old(k.clock), old(b[..]), rfd, BudgetOf(timeout));
      if rc == 1 then
        && res <= |s.Input()| && Complete(s.Input(), res)
        && Progress(k, b, Spend(s.budget, Waits(s.Input(), res)), s, res)
      else
        && Halted(k, b, rc, error, s, res) && Arrives(s.Input(), s.budget, res)
        && Within(s.Input(), res) && !Complete(s.Input(), res)
  {
    var pt := BudgetOf(timeout);
    ghost var s := Start(k.sockets, k.clock, b[..], rfd, pt);
    assert s.Input()[0..] == s.Input();
    rc, error, res, pt := FillHeader(k, rfd, b, pt, s);
    if rc == 1 {
      rc, error, res := FillRest(k, rfd, b, pt, s, TCP_HEADER + PacketLength(Data(s.Input(), TCP_HEADER)));
    }
  }

  /** `_ADSReadPacket`. */
  method ReadPacket(k: Kernel, di: ADSInterface?, b: array<byte>) returns (rc: int, error: int)
    requires b.Length == MAXDATALEN
    requires di != null ==> di.sd in k.sockets
    modifies k`sockets, k`clock, b
    ensures di == null ==>
      rc == -12 && error == 0 && k.sockets == old(k.sockets) && k.clock == old(k.clock) && b[..] == old(b[..])
    ensures di != null ==>
      var s := old(k.sockets)[di.sd];
      var r := ReadIface(di.error, s.input, di.timeout, old(b[..]));
      && rc == r.rc && error == r.error && b[..] == r.image
      && k.sockets == old(k.sockets)[di.sd := s.(input := r.input)]
      && k.clock == old(k.clock) + r.elapsed
  {
    if di == null {
      return -12, 0;
    }
    if di.error != 0 {
      return -11, 0;
    }
    ghost var s := Start(k.sockets, k.clock, b[..], di.sd, BudgetOf(di.timeout));
    var res;
    rc, error, res := Fill(k, di.sd, b, di.timeout);
    if rc != 1 {
      HaltedIsRead(s, di.timeout, res);
      return;
    }
    CompleteIsRead(s, di.timeout, res);
    LengthStable(s.image, s.Input(), res);
    if TCP_HEADER + PacketLength(b[..]) > MAXDATALEN {
      Patch(b);
      return res, OVERSIZED;
    }
    return res, 0;
  }

  /** `_ADSWritePacket`; `error` means something only when the result is not 1. */
  method WritePacket(k: Kernel, di: ADSInterface?, p: array<byte>) returns (rc: int, error: int)
    requires p.Length >= TCP_HEADER && TCP_HEADER + PacketLength(p[..]) <= p.Length
    requires di != null ==> di.sd in k.sockets
    modifies k`sockets
    ensures di == null ==> rc == -3 && error == 0 && k.sockets == old(k.sockets)
    ensures di != null ==>
      var w := Write(di.error, old(k.sockets)[di.sd], p[..TCP_HEADER + PacketLength(p[..])]);
      && rc == w.rc && (rc != 1 ==> error == w.error)
      && k.sockets == old(k.sockets)[di.sd := w.socket]
  {
    if di == null {
      return -3, 0;
    }
    if di.error != 0 {
      return -4, 0;
    }
    var total := TCP_HEADER + PacketLength(p[..]);
    var errno;
    assert p[..total][..total] == p[..total];
    rc, errno := k.Send(di.sd, p[..total]);
    if rc == -1 {
      return 0, errno;
    } else if rc != total {
      return 0, errno;
    }
    return 1, 0;
  }
}
