/**
  The operating system as src/ads_io.c and src/ads_connect.c see it: descriptors,
  and for each an input that is still to arrive and an output that was accepted.
 */
module Kernel {
  import opened Bytes

  const EINVAL := 22

  /** What `select` and `recv` find once an event is due. */
  datatype What =
    | Arrival(data: byte)
    | PeerShutdown
    | RecvError(recvErrno: int)
    | SelectError(selectErrno: int)

  /** An event and the microseconds that pass between the previous event and it. */
  datatype Event = Event(wait: nat, what: What)

  /** What `send` does with one call: it takes at most `limit` bytes, or fails. */
  datatype SendOutcome = Accept(limit: nat, errno: int) | SendError(errno: int)

  /** When `input` is used up the peer has shut down; when `sends` is, every send is complete. */
  datatype Socket = Socket(input: seq<Event>, sends: seq<SendOutcome>, sent: seq<byte>)

  /** The `struct timeval *` of `select`: NULL, or the time left in microseconds. */
  datatype Budget = Forever | Micros(us: int)

  function Spend(b: Budget, waited: nat): Budget {
    if b.Forever? then b else Micros(b.us - waited)
  }

  /** The bytes that are still to arrive, in order, whatever else happens between them. */
  function StreamBytes(input: seq<Event>): seq<byte> {
    if input == [] then []
    else (if input[0].what.Arrival? then [input[0].what.data] else []) + StreamBytes(input[1..])
  }

  class Kernel {
    var sockets: map<int, Socket>
    var clock: nat
    var closed: seq<int>   // the descriptors passed to close(), in order

    constructor ()
      ensures sockets == map[] && clock == 0 && closed == []
    {
      sockets, clock, closed := map[], 0, [];
    }

    /**
      Waits until the descriptor is readable or the budget is used up, and reduces
      the budget by the time waited.  1: readable, 0: timed out, -1: failed.
     */
    method Select(fd: int, budget: Budget) returns (rc: int, errno: int, left: Budget)
      requires fd in sockets
      modifies this`sockets, this`clock
      ensures var input := old(sockets)[fd].input;
        if budget.Micros? && budget.us < 0 then
          rc == -1 && errno == EINVAL && left == budget && sockets == old(sockets) && clock == old(clock)
        else if input == [] then
          rc == 1 && left == budget && sockets == old(sockets) && clock == old(clock)
        else if budget.Micros? && budget.us < input[0].wait then
          rc == 0 && left == Micros(0) && clock == old(clock) + budget.us
          && var rest := [input[0].(wait := input[0].wait - budget.us)] + input[1..];
          sockets == old(sockets)[fd := old(sockets)[fd].(input := rest)]
        else
          left == Spend(budget, input[0].wait) && clock == old(clock) + input[0].wait
          && if input[0].what.SelectError? then
               rc == -1 && errno == input[0].what.selectErrno
               && sockets == old(sockets)[fd := old(sockets)[fd].(input := input[1..])]
             else
               rc == 1
               && sockets == old(sockets)[fd := old(sockets)[fd].(input := [input[0].(wait := 0)] + input[1..])]
    {
      rc, errno, left := 1, 0, budget;
      var s := sockets[fd];
      if budget.Micros? && budget.us < 0 {
        return -1, EINVAL, budget;
      }
      if s.input == [] {
        return;
      }
      var e := s.input[0];
      if budget.Micros? && budget.us < e.wait {
        sockets := sockets[fd := s.(input := [e.(wait := e.wait - budget.us)] + s.input[1..])];
        clock := clock + budget.us;
        return 0, 0, Micros(0);
      }
      left := Spend(budget, e.wait);
      clock := clock + e.wait;
      if e.what.SelectError? {
        sockets := sockets[fd := s.(input := s.input[1..])];
        return -1, e.what.selectErrno, left;
      }
      sockets := sockets[fd := s.(input := [e.(wait := 0)] + s.input[1..])];
    }

    /** Takes what is there: 1: a byte, 0: the peer has shut down, -1: failed. */
    method Recv(fd: int) returns (rc: int, errno: int, data: byte)
      requires fd in sockets
      requires sockets[fd].input != [] ==> !sockets[fd].input[0].what.SelectError?
      modifies this`sockets
      ensures var input := old(sockets)[fd].input;
        if input == [] then
          rc == 0 && sockets == old(sockets)
        else
          sockets == old(sockets)[fd := old(sockets)[fd].(input := input[1..])]
          && match input[0].what
             case Arrival(d) => rc == 1 && data == d
             case PeerShutdown => rc == 0
             case RecvError(e) => rc == -1 && errno == e
             case SelectError(_) => true
    {
      rc, errno, data := 0, 0, 0;
      var s := sockets[fd];
      if s.input != [] {
        match s.input[0].what {
          case Arrival(d) => rc, data := 1, d;
          case PeerShutdown => rc := 0;
          case RecvError(e) => rc, errno := -1, e;
          case SelectError(_) => assert false;
        }
        sockets := sockets[fd := s.(input := s.input[1..])];
      }
    }

    /** Hands bytes to the transport: the number accepted, or -1. */
    method Send(fd: int, bytes: seq<byte>) returns (rc: int, errno: int)
      requires fd in sockets
      modifies this`sockets
      ensures var s := old(sockets)[fd];
        if s.sends == [] then
          rc == |bytes| && sockets == old(sockets)[fd := s.(sent := s.sent + bytes)]
        else
          errno == s.sends[0].errno
          && match s.sends[0]
             case SendError(_) =>
               rc == -1 && sockets == old(sockets)[fd := s.(sends := s.sends[1..])]
             case Accept(limit, _) =>
               rc == (if limit < |bytes| then limit else |bytes|)
               && sockets == old(sockets)[fd := s.(sends := s.sends[1..], sent := s.sent + bytes[..rc])]
    {
      rc, errno := |bytes|, 0;
      var s := sockets[fd];
      if s.sends == [] {
        sockets := sockets[fd := s.(sent := s.sent + bytes)];
        return;
      }
      errno := s.sends[0].errno;
      match s.sends[0] {
        case SendError(_) =>
          rc := -1;
          sockets := sockets[fd := s.(sends := s.sends[1..])];
        case Accept(limit, _) =>
          rc := if limit < |bytes| then limit else |bytes|;
          sockets := sockets[fd := s.(sends := s.sends[1..], sent := s.sent + bytes[..rc])];
      }
    }

    /** Opens a descriptor that was not in use. */
    method Socket(fd: int, s: Socket)
      requires fd !in sockets
      modifies this`sockets
      ensures sockets == old(sockets)[fd := s]
    {
      sockets := sockets[fd := s];
    }

    /** Closes an open descriptor. */
    method Close(fd: int)
      requires fd in sockets
      modifies this`sockets, this`closed
      ensures sockets == old(sockets) - {fd} && closed == old(closed) + [fd]
    {
      sockets := sockets - {fd};
      closed := closed + [fd];
    }
  }
}
