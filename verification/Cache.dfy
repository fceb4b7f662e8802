/**
  What the connection list of src/ads_connect.c and src/AdsAPI.c holds, as values:
  the entries in order, the descriptors the process has open, and what the list
  pointer points to.
 */
module Cache {
  import opened Bytes
  import opened AdsH

  const EHOSTUNREACH := 113

  /** A listed connection: the peer, the descriptor and the timeout of its interface. */
  datatype Entry = Entry(netId: NetId, port: int, fd: int, timeout: int)

  /** `pADSConnectionList`: NULL, the array, or the freed array. */
  datatype ListPtr = Null | Allocated | Dangling

  datatype State = State(entries: seq<Entry>, open: set<int>, ptr: ListPtr)

  /** What the system calls of `ADSsocketConnect` do; a descriptor it got stays open when a later call fails. */
  datatype Attempt =
    | NoSocket(errno: int)
    | ConnectFailed(fd: int, errno: int)
    | OptionFailed(fd: int, errno: int)
    | NoAddress(fd: int, nerr: int)
    | Connected(fd: int)

  function FdsOf(o: Attempt): set<int> {
    if o.NoSocket? then {} else {o.fd}
  }

  function AttemptError(o: Attempt): int {
    match o
    case NoSocket(_) => 0x1
    case ConnectFailed(_, e) => if e == EHOSTUNREACH then 0x274c else 0x1
    case OptionFailed(_, e) => if e == EHOSTUNREACH then 0x274c else 0x1
    case NoAddress(_, n) => n
    case Connected(_) => 0
  }

  // ---------------------------------------------------------------- lookup

  /** The 8 bytes of a connection from `partner` on, and the 8 bytes of an address. */
  function PartnerBytes(netId: NetId, port: int): (s: seq<byte>)
    ensures |s| == 8
  {
    (netId + Le32(ToU32(port)))[..8]
  }

  function AddrBytes(a: AmsAddr): (s: seq<byte>)
    ensures |s| == 8
  {
    a.netId + Le16(a.port)
  }

  /** The `memcmp` of `ADSsocketGet`. */
  predicate Matches(e: Entry, a: AmsAddr) {
    PartnerBytes(e.netId, e.port) == AddrBytes(a)
  }

  predicate HasKey(e: Entry, a: AmsAddr) {
    e.netId == a.netId && e.port == a.port
  }

  /** The first entry that matches, or the length of the list. */
  function Find(entries: seq<Entry>, a: AmsAddr): (i: nat)
    ensures i <= |entries|
  {
    if entries == [] || Matches(entries[0], a) then 0
    else 1 + Find(entries[1..], a)
  }

  lemma {:induction false} FindIsFirst(entries: seq<Entry>, a: AmsAddr)
    ensures var i := Find(entries, a);
      && (i < |entries| ==> Matches(entries[i], a))
      && forall j :: 0 <= j < i ==> !Matches(entries[j], a)
  {
    if entries != [] && !Matches(entries[0], a) {
      FindIsFirst(entries[1..], a);
      assert forall j :: 0 < j < |entries| ==> entries[j] == entries[1..][j - 1];
    }
  }

  /**
    The comparison runs over the end of `partner` into the low half of `AMSport`.
    It succeeds exactly when the ids agree and the ports agree modulo 65536.
   */
  lemma MatchesIff(e: Entry, a: AmsAddr)
    ensures Matches(e, a) <==> e.netId == a.netId && ToU32(e.port) % 0x1_0000 == a.port
  {
    var p := ToU32(e.port);
    var s, t := PartnerBytes(e.netId, e.port), AddrBytes(a);
    assert s == e.netId + [p % 0x100, p / 0x100 % 0x100];
    assert t == a.netId + [a.port % 0x100, a.port / 0x100];
    SameEnds(e.netId, [p % 0x100, p / 0x100 % 0x100], a.netId, [a.port % 0x100, a.port / 0x100]);
    LowHalf(p, a.port);
  }

  lemma SameEnds(x: seq<byte>, y: seq<byte>, z: seq<byte>, w: seq<byte>)
    requires |x| == |z|
    ensures x + y == z + w <==> x == z && y == w
  {
    if x + y == z + w {
      assert x == (x + y)[..|x|] && z == (z + w)[..|x|];
      assert y == (x + y)[|x|..] && w == (z + w)[|x|..];
    }
  }

  lemma LowBytes(p: u32)
    ensures p % 0x1_0000 == 0x100 * (p / 0x100 % 0x100) + p % 0x100
  {
    var x := p / 0x100;
    assert p == 0x100 * x + p % 0x100;
    assert x == 0x100 * (x / 0x100) + x % 0x100;
    Remainder(x / 0x100, 0x100 * (x % 0x100) + p % 0x100);
  }

  lemma Remainder(q: nat, r: u16)
    ensures (0x1_0000 * q + r) % 0x1_0000 == r
  {
  }

  lemma SamePair(a: byte, b: byte, c: byte, d: byte)
    ensures [a, b] == [c, d] <==> 0x100 * b + a == 0x100 * d + c
  {
    assert [a, b][0] == a && [a, b][1] == b;
    LastByte(b, a);
    LastByte(d, c);
  }

  /** The low half of a word is determined by its two low bytes. */
  lemma LowHalf(p: u32, port: u16)
    ensures [p % 0x100, p / 0x100 % 0x100] == [port % 0x100, port / 0x100] <==> p % 0x1_0000 == port
  {
    LowBytes(p);
    SamePair(p % 0x100, p / 0x100 % 0x100, port % 0x100, port / 0x100);
  }

  /** For the ports that `ADSsocketConnect` stores this is equality of the whole key. */
  lemma MatchesIsKey(e: Entry, a: AmsAddr)
    requires 0 <= e.port < 0x1_0000
    ensures Matches(e, a) <==> HasKey(e, a)
  {
    MatchesIff(e, a);
  }

  /** A connection made with a port outside that range would be found under another key. */
  lemma MatchesWithoutKey(n: NetId)
    ensures var e, a := Entry(n, 0x1_0321, 3, 0), AmsAddr(n, 0x321);
      Matches(e, a) && !HasKey(e, a)
  {
  }

  // ---------------------------------------------------------------- operations

  datatype Op = Get(a: AmsAddr, o: Attempt) | SetTimeout(port: int, nMs: int) | Close

  predicate Misses(c: State, a: AmsAddr) {
    Find(c.entries, a) == |c.entries|
  }

  /** The get makes a new connection. */
  predicate Connects(c: State, op: Op) {
    op.Get? && Misses(c, op.a) && op.o.Connected?
  }

  /** The get tries to connect and fails. */
  predicate FailsToConnect(c: State, op: Op) {
    op.Get? && Misses(c, op.a) && !op.o.Connected?
  }

  /**
    What can happen next: the kernel hands out descriptors that are not in use, and
    a close does not meet the array that an earlier close has freed; what the
    program does from there is not defined.
   */
  predicate Possible(c: State, op: Op) {
    match op
    case Get(a, o) => Misses(c, a) ==> FdsOf(o) !! c.open
    case SetTimeout(_, _) => true
    case Close => !c.ptr.Dangling?
  }

  function WithTimeout(entries: seq<Entry>, nMs: int): (r: seq<Entry>)
    ensures |r| == |entries|
  {
    seq(|entries|, i requires 0 <= i < |entries| => entries[i].(timeout := ToInt32(nMs)))
  }

  function Fds(entries: seq<Entry>): set<int> {
    set e | e in entries :: e.fd
  }

  function Apply(c: State, op: Op): State {
    match op
    case Get(a, o) =>
      if !Misses(c, a) then c
      else if o.Connected? then
        State(c.entries + [Entry(a.netId, a.port, o.fd, 0)], c.open + {o.fd}, Allocated)
      else c.(open := c.open + FdsOf(o))
    case SetTimeout(port, nMs) =>
      if port <= 0 then c else c.(entries := WithTimeout(c.entries, nMs))
    case Close =>
      State([], c.open - Fds(c.entries), if c.ptr.Null? then Null else Dangling)
  }
}
