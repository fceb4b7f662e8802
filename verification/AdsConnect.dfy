/** The list of open connections: src/ads_connect.c and `AdsPortClose` of src/AdsAPI.c. */
module AdsConnect {
  import opened Bytes
  import opened AdsH
  import opened Kernel
  import opened Cache
  import opened CacheRuns
  import opened LocalAddress

  /** How far `ADSsocketConnect` comes: `socket`, `connect` or `setsockopt` fails, or none of them. */
  datatype SystemCalls =
    | SocketFails(errno: int)
    | ConnectFails(fd: int, errno: int)
    | OptionFails(fd: int, errno: int)
    | Established(fd: int)

  /** What a connect meets: those system calls, and what `getifaddrs` finds. */
  datatype Environment = Environment(calls: SystemCalls, interfaces: Option<seq<Interface>>)

  function LocalResult(e: Environment, me: AmsAddr): MeResult {
    Me(me, e.interfaces, AMSPORT_R0_PLC_RTS1)
  }

  /** The search for the local address, if it is reached, meets no NULL address. */
  predicate Defined(e: Environment, me: AmsAddr) {
    e.calls.Established? ==> LocalResult(e, me).MeResult?
  }

  /** How the connect ends, when the local address known so far is `me`. */
  function AttemptOf(e: Environment, me: AmsAddr): Attempt
    requires Defined(e, me)
  {
    match e.calls
    case SocketFails(errno) => NoSocket(errno)
    case ConnectFails(fd, errno) => ConnectFailed(fd, errno)
    case OptionFails(fd, errno) => OptionFailed(fd, errno)
    case Established(fd) =>
      var r := LocalResult(e, me);
      if r.ret == 0 then Connected(fd) else NoAddress(fd, r.ret)
  }

  /** The local address that is known afterwards. */
  function MeAfter(e: Environment, me: AmsAddr): AmsAddr
    requires Defined(e, me)
  {
    if e.calls.Established? then LocalResult(e, me).me else me
  }

  /** What the list knows about a connection. */
  function EntryOf(dc: ADSConnection): Entry
    reads dc.iface
  {
    Entry(dc.partner, dc.AMSport, dc.iface.sd, dc.iface.timeout)
  }

  /** A connection that is alive and whose descriptor is open. */
  ghost predicate Alive(dc: ADSConnection, freed: set<object>, open: set<int>)
    reads dc.iface
  {
    dc.Valid() && 0 <= dc.AMSport < 0x1_0000 && dc.iface.sd in open && dc !in freed && dc.iface !in freed
  }

  /** A connection as `ADSsocketConnect` leaves it. */
  predicate IsNew(dc: ADSConnection, a: AmsAddr, fd: int, me: NetId)
    reads dc, dc.iface, dc.msgIn, dc.msgOut
  {
    && dc.partner == a.netId && dc.AMSport == a.port && dc.invokeId == 0 && dc.AnswLen == 0
    && dc.iface.sd == fd && dc.iface.timeout == 0 && dc.iface.error == 0
    && dc.iface.me == me && dc.iface.AMSport == a.port
    && dc.msgIn[..] == Zeros(MAXDATALEN) && dc.msgOut[..] == Zeros(MAXDATALEN)
  }

  predicate Separate(c: ADSConnection, d: ADSConnection)
    reads c.iface, d.iface
  {
    c != d && c.iface != d.iface && c.iface.sd != d.iface.sd
  }

  /** Two connections with these descriptors do not share anything that a close touches. */
  predicate Apart(c: ADSConnection, d: ADSConnection, f: int, g: int) {
    c != d && c.iface != d.iface && f != g
  }

  /** The descriptors of a list in order. */
  function FdList(es: seq<Entry>): seq<int> {
    if es == [] then [] else FdList(es[..|es| - 1]) + [es[|es| - 1].fd]
  }

  function Elements(fds: seq<int>): set<int> {
    if fds == [] then {} else Elements(fds[..|fds| - 1]) + {fds[|fds| - 1]}
  }

  /** The heap blocks of a list of connections. */
  ghost function Blocks(list: seq<ADSConnection>): set<object> {
    if list == [] then {} else Blocks(list[..|list| - 1]) + {list[|list| - 1], list[|list| - 1].iface}
  }

  /** The globals `pADSConnectionList` (its array is `list`, its pointer `ptr`) and `nADSConnectionCnt` (`|list|`). */
  class ConnectionList {
    var list: seq<ADSConnection>
    var ptr: ListPtr
    ghost var freed: set<object>   // what free() was called with

    constructor ()
      ensures list == [] && ptr == Null && freed == {}
    {
      list, ptr, freed := [], Null, {};
    }

    ghost function Interfaces(): set<ADSInterface>
      reads this
    {
      set dc | dc in list :: dc.iface
    }

    /** Each listed connection is alive, owns its interface and its descriptor, and the descriptor is open. */
    ghost predicate Valid(k: Kernel)
      reads this, Interfaces(), k
    {
      && (forall i :: 0 <= i < |list| ==> Alive(list[i], freed, k.sockets.Keys))
      && (forall i, j :: 0 <= i < j < |list| ==> Separate(list[i], list[j]))
      && (list != [] ==> ptr == Allocated)
    }

    ghost function Entries(): (es: seq<Entry>)
      reads this, Interfaces()
      ensures |es| == |list| && forall i :: 0 <= i < |list| ==> es[i] == EntryOf(list[i])
    {
      seq(|list|, i requires 0 <= i < |list| reads this, Interfaces() => EntryOf(list[i]))
    }

    ghost function Abstract(k: Kernel): State
      reads this, Interfaces(), k
    {
      State(Entries(), k.sockets.Keys, ptr)
    }

    /** `ADSsocketConnect`; it ends as `o` says. */
    method SocketConnect(k: Kernel, m: MeAddress, a: AmsAddr, e: Environment, s: Socket, ghost o: Attempt)
      returns (dc: ADSConnection?, adsError: int)
      requires Defined(e, m.Contents()) && o == AttemptOf(e, m.Contents()) && FdsOf(o) !! k.sockets.Keys
      modifies k`sockets, m
      ensures k.sockets == if o.NoSocket? then old(k.sockets) else old(k.sockets)[o.fd := s]
      ensures m.Contents() == MeAfter(e, old(m.Contents()))
      ensures dc != null <==> o.Connected?
      ensures dc == null ==> adsError == AttemptError(o)
      ensures dc != null ==>
        && fresh(dc) && fresh(dc.iface) && fresh(dc.msgIn) && fresh(dc.msgOut) && dc.Valid()
        && IsNew(dc, a, o.fd, m.netId)
    {
      match e.calls {
        case SocketFails(errno) =>
          return null, 0x1;
        case ConnectFails(fd, errno) =>
          k.Socket(fd, s);
          return null, if errno == EHOSTUNREACH then 0x274c else 0x1;
        case OptionFails(fd, errno) =>
          k.Socket(fd, s);
          return null, if errno == EHOSTUNREACH then 0x274c else 0x1;
        case Established(fd) =>
          k.Socket(fd, s);
          var nerr, local := m.AdsGetMeAddress(e.interfaces, AMSPORT_R0_PLC_RTS1);
          if nerr != 0 {
            return null, nerr;
          }
          var di := new ADSInterface(fd, local.value.netId, a.port);
          dc := new ADSConnection(di, a.netId, a.port);
          return dc, 0;
      }
    }

    /** The search loop of `ADSsocketGet`. */
    method Lookup(a: AmsAddr) returns (i: nat)
      ensures i == Find(Entries(), a)
    {
      FindIsFirst(Entries(), a);
      i := 0;
      while i < |list|
        invariant i <= |list|
        invariant forall j :: 0 <= j < i ==> !Matches(Entries()[j], a)
      {
        assert Entries()[i] == EntryOf(list[i]);
        if PartnerBytes(list[i].partner, list[i].AMSport) == AddrBytes(a) {
          return;
        }
        i := i + 1;
      }
    }

    /** The new last element of the grown array. */
    method Append(k: Kernel, dc: ADSConnection)
      requires Valid(k) && Alive(dc, freed, k.sockets.Keys)
      requires forall i :: 0 <= i < |list| ==> Separate(list[i], dc)
      modifies this`list, this`ptr
      ensures Valid(k) && list == old(list) + [dc] && ptr == Allocated
      ensures Entries() == old(Entries()) + [EntryOf(dc)]
    {
      ptr := Allocated;
      list := list + [dc];
    }

    /** The part of `ADSsocketGet` behind the search. */
    method ConnectNew(k: Kernel, m: MeAddress, a: AmsAddr, e: Environment, s: Socket, ghost o: Attempt)
      returns (dc: ADSConnection?, adsError: int)
      requires Valid(k) && Misses(Abstract(k), a) && FdsOf(o) !! k.sockets.Keys
      requires Defined(e, m.Contents()) && o == AttemptOf(e, m.Contents())
      modifies this`list, this`ptr, k`sockets, m
      ensures Valid(k) && m.Contents() == MeAfter(e, old(m.Contents()))
      ensures k.sockets.Keys == old(k.sockets.Keys) + FdsOf(o)
      ensures if o.Connected? then
          && dc != null && fresh(dc) && fresh(dc.msgIn) && fresh(dc.msgOut) && IsNew(dc, a, o.fd, m.netId)
          && k.sockets == old(k.sockets)[o.fd := s]
          && list == old(list) + [dc] && adsError == 0 && ptr == Allocated
          && Entries() == old(Entries()) + [Entry(a.netId, a.port, o.fd, 0)]
        else
          && dc == null && adsError == AttemptError(o) && list == old(list) && ptr == old(ptr)
          && Entries() == old(Entries())
    {
      dc, adsError := SocketConnect(k, m, a, e, s, o);
      assert k.sockets.Keys == old(k.sockets.Keys) + FdsOf(o);
      assert forall i :: 0 <= i < |list| ==> EntryOf(list[i]) == old(EntryOf(list[i]));
      if dc == null {
        return;
      }
      Append(k, dc);
      adsError := 0;
    }

    /** `ADSsocketGet`. */
    method SocketGet(k: Kernel, m: MeAddress, a: AmsAddr, e: Environment, s: Socket, ghost o: Attempt)
      returns (dc: ADSConnection?, adsError: int)
      requires Valid(k) && Possible(Abstract(k), Get(a, o))
      requires Misses(Abstract(k), a) ==> Defined(e, m.Contents()) && o == AttemptOf(e, m.Contents())
      modifies this`list, this`ptr, k`sockets, m
      ensures Valid(k) && Abstract(k) == Apply(old(Abstract(k)), Get(a, o))
      ensures var i := Find(old(Entries()), a);
        if i < |old(list)| then dc == old(list[i]) && adsError == 0 && k.sockets == old(k.sockets)
        else if o.Connected? then
          && dc != null && fresh(dc) && fresh(dc.msgIn) && fresh(dc.msgOut) && IsNew(dc, a, o.fd, m.netId)
          && k.sockets == old(k.sockets)[o.fd := s]
          && adsError == 0
        else dc == null && adsError == AttemptError(o)
      ensures list == if dc != null && Misses(old(Abstract(k)), a) then old(list) + [dc] else old(list)
      ensures dc != null ==> dc in list
      ensures m.Contents() ==
        if Misses(old(Abstract(k)), a) then MeAfter(e, old(m.Contents())) else old(m.Contents())
    {
      ghost var c := Abstract(k);
      var i := Lookup(a);
      assert Entries() == c.entries;
      if i < |list| {
        return list[i], 0;
      }
      dc, adsError := ConnectNew(k, m, a, e, s, o);
    }

    /** `AdsSetTimeout`. */
    method SetAllTimeouts(k: Kernel, port: int, nMs: int) returns (ret: int)
      requires Valid(k)
      modifies Interfaces()`timeout
      ensures Valid(k) && Abstract(k) == Apply(old(Abstract(k)), SetTimeout(port, nMs))
      ensures ret == if port <= 0 then 0x18 else 0
    {
      if port <= 0 {
        return 0x18;
      }
      var i := 0;
      while i < |list|
        invariant i <= |list|
        invariant forall j :: 0 <= j < |list| ==>
          list[j].iface.timeout == (if j < i then ToInt32(nMs) else old(list[j].iface.timeout))
      {
        assert list[i] in list;
        list[i].iface.timeout := ToInt32(nMs);
        i := i + 1;
      }
      ret := 0;
    }

    /** `ADSsocketDisconnect`; its test compares the address of the descriptor with 0 and never succeeds. */
    method SocketDisconnect(k: Kernel, dc: ADSConnection) returns (ret: int)
      requires dc.iface.sd in k.sockets
      modifies k`sockets, k`closed, dc.iface`sd
      ensures k.sockets == old(k.sockets) - {old(dc.iface.sd)} && k.closed == old(k.closed) + [old(dc.iface.sd)]
      ensures dc.iface.sd == 0 && ret == 0
    {
      k.Close(dc.iface.sd);
      dc.iface.sd := 0;
      ret := 0;
    }

    /** `ADSFreeConnection`: nothing is freed twice. */
    ghost method FreeConnection(dc: ADSConnection)
      requires dc !in freed && dc.iface !in freed
      modifies this`freed
      ensures freed == old(freed) + {dc, dc.iface}
    {
      freed := freed + {dc, dc.iface};
    }

    /** One round of the loop of `AdsPortClose`. */
    method CloseOne(k: Kernel, dc: ADSConnection)
      requires dc.iface.sd in k.sockets && dc !in freed && dc.iface !in freed
      modifies this`freed, k`sockets, k`closed, dc.iface`sd
      ensures k.sockets.Keys == old(k.sockets.Keys) - {old(dc.iface.sd)}
      ensures k.closed == old(k.closed) + [old(dc.iface.sd)]
      ensures freed == old(freed) + {dc, dc.iface}
    {
      var ret := SocketDisconnect(k, dc);
      FreeConnection(dc);
    }

    /** The loop of `AdsPortClose`: each listed descriptor is closed once, in order, and each connection freed once. */
    method CloseAll(k: Kernel, ghost fds: seq<int>)
      requires |fds| == |list|
      requires forall j :: 0 <= j < |list| ==>
        list[j].iface.sd == fds[j] && fds[j] in k.sockets && list[j] !in freed && list[j].iface !in freed
      requires forall i, j {:trigger Apart(list[i], list[j], fds[i], fds[j])} :: 0 <= i < j < |list| ==>
        Apart(list[i], list[j], fds[i], fds[j])
      modifies this`freed, k`sockets, k`closed, Interfaces()`sd
      ensures k.sockets.Keys == old(k.sockets.Keys) - Elements(fds)
      ensures k.closed == old(k.closed) + fds
      ensures freed == old(freed) + Blocks(list)
    {
      var i := 0;
      while i < |list|
        invariant i <= |list|
        invariant forall j :: i <= j < |list| ==> list[j].iface.sd == fds[j] && fds[j] in k.sockets
        invariant forall j :: i <= j < |list| ==> list[j] !in freed && list[j].iface !in freed
        invariant k.sockets.Keys == old(k.sockets.Keys) - Elements(fds[..i])
        invariant k.closed == old(k.closed) + fds[..i]
        invariant freed == old(freed) + Blocks(list[..i])
      {
        TakeMore(fds, i);
        TakeMore(list, i);
        assert list[i] in list;
        forall j | i < j < |list|
          ensures list[j] != list[i] && list[j].iface != list[i].iface && fds[j] != fds[i]
        {
          assert Apart(list[i], list[j], fds[i], fds[j]);
        }
        CloseOne(k, list[i]);
        i := i + 1;
      }
      assert fds[..i] == fds && list[..i] == list;
    }

    /**
      `AdsPortClose`.  The pointer keeps its value, so a second close before the
      next new connection would free the array again.
     */
    method PortClose(k: Kernel) returns (ret: int)
      requires Valid(k) && !ptr.Dangling?
      modifies this, k`sockets, k`closed, Interfaces()`sd
      ensures Valid(k) && Abstract(k) == Apply(old(Abstract(k)), Close) && ret == 0
      ensures k.closed == old(k.closed) + FdList(old(Entries()))
      ensures freed == old(freed) + Blocks(old(list))
    {
      ghost var fds := ReadyToClose(this, k);
      CloseAll(k, fds);
      ptr := if ptr.Null? then Null else Dangling;
      list := [];
      ret := 0;
    }
  }

  /** The connections of a valid list are apart. */
  lemma {:induction false} ListApart(l: ConnectionList, k: Kernel, fds: seq<int>)
    requires l.Valid(k) && |fds| == |l.list| && forall j :: 0 <= j < |fds| ==> fds[j] == l.list[j].iface.sd
    ensures forall i, j {:trigger Apart(l.list[i], l.list[j], fds[i], fds[j])} :: 0 <= i < j < |l.list| ==>
      Apart(l.list[i], l.list[j], fds[i], fds[j])
  {
    forall i, j | 0 <= i < j < |l.list|
      ensures Apart(l.list[i], l.list[j], fds[i], fds[j])
    {
      assert Separate(l.list[i], l.list[j]);
    }
  }

  /** The descriptors of a valid list, in order, are what closing it is about. */
  lemma {:induction false} ReadyToClose(l: ConnectionList, k: Kernel) returns (fds: seq<int>)
    requires l.Valid(k)
    ensures fds == FdList(l.Entries()) && Elements(fds) == Fds(l.Entries()) && |fds| == |l.list|
    ensures forall j :: 0 <= j < |l.list| ==>
      && l.list[j].iface.sd == fds[j] && fds[j] in k.sockets
      && l.list[j] !in l.freed && l.list[j].iface !in l.freed
    ensures forall i, j {:trigger Apart(l.list[i], l.list[j], fds[i], fds[j])} :: 0 <= i < j < |l.list| ==>
      Apart(l.list[i], l.list[j], fds[i], fds[j])
  {
    fds := FdsInOrder(l);
    ListAlive(l, k);
    ListApart(l, k, fds);
  }

  lemma {:induction false} FdsInOrder(l: ConnectionList) returns (fds: seq<int>)
    ensures fds == FdList(l.Entries()) && Elements(fds) == Fds(l.Entries()) && |fds| == |l.list|
    ensures forall j :: 0 <= j < |l.list| ==> fds[j] == l.list[j].iface.sd
  {
    var es := l.Entries();
    fds := FdList(es);
    FdListAt(es);
    FdListElements(es);
  }

  lemma {:induction false} ListAlive(l: ConnectionList, k: Kernel)
    requires l.Valid(k)
    ensures forall j :: 0 <= j < |l.list| ==>
      l.list[j].iface.sd in k.sockets && l.list[j] !in l.freed && l.list[j].iface !in l.freed
  {
    forall j | 0 <= j < |l.list|
      ensures l.list[j].iface.sd in k.sockets && l.list[j] !in l.freed && l.list[j].iface !in l.freed
    {
      assert Alive(l.list[j], l.freed, k.sockets.Keys);
    }
  }

  lemma {:induction false} FdListAt(es: seq<Entry>)
    ensures |FdList(es)| == |es| && forall i :: 0 <= i < |es| ==> FdList(es)[i] == es[i].fd
  {
    if es != [] {
      FdListAt(es[..|es| - 1]);
    }
  }

  lemma {:induction false} FdListElements(es: seq<Entry>)
    ensures Elements(FdList(es)) == Fds(es)
  {
    if es != [] {
      var n := |es| - 1;
      FdListElements(es[..n]);
      FdsAppend(es[..n], es[n]);
      assert es == es[..n] + [es[n]];
      assert FdList(es)[..|FdList(es)| - 1] == FdList(es[..n]);
    }
  }

  /** The heap blocks of a list are its connections and their interfaces. */
  lemma {:induction false} BlocksAre(list: seq<ADSConnection>, o: object)
    ensures o in Blocks(list) <==> exists i :: 0 <= i < |list| && (o == list[i] || o == list[i].iface)
  {
    if list != [] {
      var n := |list| - 1;
      BlocksAre(list[..n], o);
      assert forall i :: 0 <= i < n ==> list[..n][i] == list[i];
    }
  }

  lemma TakeMore<T>(s: seq<T>, i: nat)
    requires i < |s|
    ensures s[..i + 1] == s[..i] + [s[i]] && s[..i + 1][..i] == s[..i]
  {
  }

  // ---------------------------------------------------------------- the local address of connections

  /** A connect fails for want of a local address exactly when it gets that far and the search returns 0x1 or 0xa. */
  lemma NoAddressIff(e: Environment, me: AmsAddr)
    requires Defined(e, me)
    ensures AttemptOf(e, me).NoAddress? <==> e.calls.Established? && LocalResult(e, me).ret != 0
    ensures var o := AttemptOf(e, me);
      o.NoAddress? ==> me.netId[0] == 0 && o.nerr == if e.interfaces.None? then 0x1 else 0xa
    ensures AttemptOf(e, me).NoAddress? && e.interfaces.Some? ==>
      forall i :: 0 <= i < |e.interfaces.value| ==> !Eligible(e.interfaces.value[i])
  {
  }

  /**
    The error code of a connect, and the descriptor it got: 0x274c when `connect` or
    `setsockopt` fails because the host is unreachable (113), 0xa when a search that
    is needed finds only entries that do not count, 0 when it succeeds, which needs
    a known id, an empty list or an entry that counts, and 0x1 in all other cases.
   */
  lemma ConnectErrors(e: Environment, me: AmsAddr)
    requires Defined(e, me)
    ensures var c, code, l := e.calls, AttemptError(AttemptOf(e, me)), e.interfaces;
      var counts := l.Some? && exists i :: 0 <= i < |l.value| && l.value[i].addr.Some?
                                           && l.value[i].addr.value.Inet? && l.value[i].name != "lo";
      && (code == 0x274c <==> (c.ConnectFails? || c.OptionFails?) && c.errno == 113)
      && (code == 0xa <==> c.Established? && me.netId[0] == 0 && l.Some? && l.value != [] && !counts)
      && (code == 0 <==> c.Established? && (me.netId[0] != 0 || (l.Some? && (l.value == [] || counts))))
      && code in {0, 0x1, 0xa, 0x274c}
    ensures AttemptOf(e, me).Connected? <==> AttemptError(AttemptOf(e, me)) == 0
    ensures FdsOf(AttemptOf(e, me)) == if e.calls.SocketFails? then {} else {e.calls.fd}
  {
    if e.calls.Established? && e.interfaces.Some? {
      CountsIff(e.interfaces.value);
    }
  }

  /** The port that is kept with the local id is 801. */
  lemma LocalPort(e: Environment, me: AmsAddr)
    requires Defined(e, me) && me.netId[0] == 0 && AttemptOf(e, me).Connected?
    ensures MeAfter(e, me).port == 801
  {
  }

  /** Every attempt of a run is defined. */
  predicate AllDefined(me: AmsAddr, es: seq<Environment>)
    decreases es
  {
    es != [] ==> Defined(es[0], me) && AllDefined(MeAfter(es[0], me), es[1..])
  }

  /** The local address known after each attempt: a connection made by it has this id. */
  function Locals(me: AmsAddr, es: seq<Environment>): (r: seq<AmsAddr>)
    requires AllDefined(me, es)
    ensures |r| == |es|
    decreases es
  {
    if es == [] then [] else [MeAfter(es[0], me)] + Locals(MeAfter(es[0], me), es[1..])
  }

  /**
    Once an attempt has found an id that does not start with 0, every later one
    leaves it as it is, so all connections made from then on have that id.
   */
  lemma {:induction false} OneLocalId(me: AmsAddr, es: seq<Environment>, i: nat, j: nat)
    requires AllDefined(me, es) && i <= j < |es| && Locals(me, es)[i].netId[0] != 0
    ensures Locals(me, es)[j] == Locals(me, es)[i]
    decreases |es|
  {
    var next := MeAfter(es[0], me);
    if i > 0 {
      OneLocalId(next, es[1..], i - 1, j - 1);
    } else if j > 0 {
      assert MeAfter(es[1], next) == next;
      OneLocalId(next, es[1..], 0, j - 1);
    }
  }
}
