/** The two functions of src/ads.c that find the local address. */
module LocalAddress {
  import opened Bytes
  import opened AdsH

  /** A socket address: IPv4 with its `s_addr` word, or another family. */
  datatype SockAddr = Inet(sAddr: u32) | OtherFamily

  /** An entry of the list of `getifaddrs`; its address may be NULL. */
  datatype Interface = Interface(name: string, addr: Option<SockAddr>)

  const FALLBACK: NetId := [127, 0, 0, 1, 1, 1]

  // ---------------------------------------------------------------- specification

  /** `ntohl` on a little-endian host. */
  function Ntohl(x: u32): u32 {
    var b := Le32(x);
    Get32([b[3], b[2], b[1], b[0]], 0)
  }

  predicate Eligible(i: Interface) {
    i.addr.Some? && i.addr.value.Inet? && i.name != "lo"
  }

  /** The first eligible entry, or the length of the list. */
  function FirstEligible(list: seq<Interface>): (n: nat)
    ensures n <= |list|
    ensures n < |list| ==> Eligible(list[n])
    ensures forall i :: 0 <= i < n ==> !Eligible(list[i])
  {
    if list == [] || Eligible(list[0]) then 0 else 1 + FirstEligible(list[1..])
  }

  /** The four octets in the order in which they are written, and two ones. */
  function IdOf(i: Interface): NetId
    requires Eligible(i)
  {
    Le32(i.addr.value.sAddr) + [1, 1]
  }

  /** The entries that `AdsGetMeAddress` looks at have an address. */
  predicate Addressed(list: seq<Interface>) {
    forall i :: 0 <= i < FirstEligible(list) ==> list[i].addr.Some?
  }

  /**
    A result of `AdsGetMeAddress` and `meAddr` afterwards (`*pAddr` is written when
    `ret` is 0), or a NULL address that it dereferences on the way.
   */
  datatype MeResult = MeResult(ret: int, me: AmsAddr) | NullDereference

  function Me(me: AmsAddr, list: Option<seq<Interface>>, port: int): MeResult {
    if me.netId[0] != 0 then MeResult(0, me)
    else if list.None? then MeResult(0x1, me)
    else
      var l := list.value;
      var n := FirstEligible(l);
      if !Addressed(l) then NullDereference
      else if n < |l| then MeResult(0, AmsAddr(IdOf(l[n]), ToU16(port)))
      else if l == [] then MeResult(0, me.(port := ToU16(port)))
      else MeResult(0xa, me)
  }

  /** `ADSGetLocalAMSId`: its result and the id, which an empty list leaves as it was. */
  function Local(list: Option<seq<Interface>>, before: NetId): (int, NetId) {
    if list.None? then (0x1, before)
    else
      var l := list.value;
      var n := FirstEligible(l);
      (0, if n < |l| then IdOf(l[n]) else if l == [] then before else FALLBACK)
  }

  // ---------------------------------------------------------------- the program

  /** Swapping the bytes and reading them backwards gives the bytes as they were. */
  lemma SwappedBackwards(x: u32)
    ensures var b, c := Le32(Ntohl(x)), Le32(x); [b[3], b[2], b[1], b[0]] == [c[0], c[1], c[2], c[3]] == c
  {
    var c := Le32(x);
    WordBytes(c[3], c[2], c[1], c[0], Ntohl(x));
  }

  /** The global `meAddr`. */
  class MeAddress {
    var netId: NetId
    var port: u16

    constructor ()
      ensures Contents() == AmsAddr([0, 0, 0, 0, 0, 0], 0)
    {
      netId, port := [0, 0, 0, 0, 0, 0], 0;
    }

    function Contents(): AmsAddr
      reads this
    {
      AmsAddr(netId, port)
    }

    /** `AdsGetMeAddress`; `list` is what `getifaddrs` finds. */
    method AdsGetMeAddress(list: Option<seq<Interface>>, amsPort: int) returns (ret: int, addr: Option<AmsAddr>)
      requires netId[0] == 0 && list.Some? ==> Addressed(list.value)
      modifies this
      ensures MeResult(ret, Contents()) == Me(old(Contents()), list, amsPort)
      ensures addr == if ret == 0 then Some(Contents()) else None
    {
      if netId[0] == 0 {
        if list.None? {
          return 0x1, None;
        }
        var l := list.value;
        var cur := 0;
        while cur < |l|
          invariant cur <= |l| && Contents() == old(Contents())
          invariant cur <= FirstEligible(l) && (cur == |l| ==> l == [])
        {
          if l[cur].addr.value.Inet? && l[cur].name != "lo" {
            netId := Le32(l[cur].addr.value.sAddr) + netId[4..];
            netId := netId[4 := 1];
            netId := netId[5 := 1];
            assert netId == IdOf(l[cur]);
            break;
          }
          if cur + 1 == |l| {
            return 0xa, None;
          }
          cur := cur + 1;
        }
        port := ToU16(amsPort);
      }
      return 0, Some(AmsAddr(netId, port));
    }
  }

  /** An assignment to `*id`. */
  method AssignId(id: array<byte>, value: NetId)
    requires id.Length == 6
    modifies id
    ensures id[..] == value
  {
    id[0], id[1], id[2], id[3], id[4], id[5] := value[0], value[1], value[2], value[3], value[4], value[5];
  }

  /** `ADSGetLocalAMSId`, storing into `*id`. */
  method ADSGetLocalAMSId(list: Option<seq<Interface>>, id: array<byte>) returns (ret: int)
    requires id.Length == 6
    modifies id
    ensures (ret, id[..]) == Local(list, old(id[..]))
  {
    if list.None? {
      return 0x01;
    }
    var l := list.value;
    var cur := 0;
    while cur < |l|
      invariant cur <= FirstEligible(l)
      invariant id[..] == if cur == |l| && l != [] then FALLBACK else old(id[..])
    {
      if l[cur].addr.Some? {
        if l[cur].addr.value.Inet? && l[cur].name != "lo" {
          var netAddr := Ntohl(l[cur].addr.value.sAddr);
          var b := Le32(netAddr);
          SwappedBackwards(l[cur].addr.value.sAddr);
          AssignId(id, [b[3], b[2], b[1], b[0]] + [1, 1]);
          break;
        }
      }
      if cur + 1 == |l| {
        AssignId(id, [127, 0, 0, 1, 1, 1]);
      }
      cur := cur + 1;
    }
    return 0;
  }

  // ---------------------------------------------------------------- properties

  /**
    On a list that is not empty the first `AdsGetMeAddress` and `ADSGetLocalAMSId`
    succeed with the same six bytes exactly when there is an IPv4 entry that is not
    "lo" and no entry before the first such one has a NULL address; then both have
    selected that one.  Otherwise the former dereferences a NULL address that the
    latter skips, or fails where the latter invents an id.
   */
  lemma FindersAgree(l: seq<Interface>, port0: u16, port: int, before: NetId)
    requires l != []
    ensures var m, q := Me(AmsAddr([0, 0, 0, 0, 0, 0], port0), Some(l), port), Local(Some(l), before);
      && (m.MeResult? && m.ret == 0 && m.me.netId == q.1
          <==> Addressed(l) && exists i :: 0 <= i < |l| && Eligible(l[i]))
      && (forall i :: 0 <= i < |l| && Eligible(l[i]) && (forall j :: 0 <= j < i ==> !Eligible(l[j])) ==>
            q.1 == IdOf(l[i]) && (Addressed(l) ==> m.me.netId == IdOf(l[i])))
      && (m.NullDereference? <==> !Addressed(l))
      && (m.MeResult? && m.ret != 0 ==> m.ret == 0xa && q == (0, FALLBACK))
  {
    var n := FirstEligible(l);
    assert n < |l| ==> Eligible(l[n]);
  }

  /** There is an eligible entry exactly when the search does not run over the whole list. */
  lemma {:induction false} CountsIff(l: seq<Interface>)
    ensures (exists i :: 0 <= i < |l| && l[i].addr.Some? && l[i].addr.value.Inet? && l[i].name != "lo")
      <==> FirstEligible(l) < |l|
  {
    var n := FirstEligible(l);
    assert n < |l| ==> Eligible(l[n]);
  }

  /**
    The six bytes that both functions deliver: the four octets of the first IPv4
    entry that is not "lo", as they are written, and two ones.  The entries before
    it have an address, or the former does not get there.
   */
  lemma FindersDeliver(l: seq<Interface>, i: nat, a: byte, b: byte, c: byte, d: byte, me: AmsAddr, port: int,
                       before: NetId)
    requires i < |l| && l[i].name != "lo" && me.netId[0] == 0
    requires l[i].addr == Some(Inet(a as int + 0x100 * b as int + 0x1_0000 * c as int + 0x100_0000 * d as int))
    requires forall j :: 0 <= j < i ==> l[j].addr.None? || l[j].addr.value.OtherFamily? || l[j].name == "lo"
    ensures Local(Some(l), before) == (0, [a, b, c, d, 1, 1])
    ensures Me(me, Some(l), port)
         == if forall j :: 0 <= j < i ==> l[j].addr.Some? then MeResult(0, AmsAddr([a, b, c, d, 1, 1], port % 65536))
            else NullDereference
  {
    var n := FirstEligible(l);
    assert Eligible(l[i]) && n == i;
    WordBytes(a, b, c, d, l[i].addr.value.sAddr);
    ConversionsAreModular(port);
    assert IdOf(l[i]) == [a, b, c, d, 1, 1];
  }

  /**
    What they deliver without such an entry: 127.0.0.1.1.1 for a list that is not
    empty, and for an empty one what was there; 0x1 without a list.
   */
  lemma NothingFound(list: Option<seq<Interface>>, me: AmsAddr, port: int, before: NetId)
    requires me.netId[0] == 0
    requires list.Some? ==> forall j :: 0 <= j < |list.value| ==>
      list.value[j].addr.None? || list.value[j].addr.value.OtherFamily? || list.value[j].name == "lo"
    ensures Local(list, before)
         == if list.None? then (0x1, before) else if list == Some([]) then (0, before) else (0, [127, 0, 0, 1, 1, 1])
    ensures Me(me, list, port)
         == if list.None? then MeResult(0x1, me)
            else if list == Some([]) then MeResult(0, AmsAddr(me.netId, port % 65536))
            else if forall j :: 0 <= j < |list.value| ==> list.value[j].addr.Some? then MeResult(0xa, me)
            else NullDereference
  {
    ConversionsAreModular(port);
    if list.Some? {
      assert FirstEligible(list.value) == |list.value|;
    }
  }

  datatype MeCall = MeCall(list: Option<seq<Interface>>, port: int)

  /** The results of calls of `AdsGetMeAddress` one after another, as far as the program gets. */
  function MeRun(me: AmsAddr, calls: seq<MeCall>): (rs: seq<MeResult>)
    ensures |rs| <= |calls|
    decreases calls
  {
    if calls == [] then []
    else
      var r := Me(me, calls[0].list, calls[0].port);
      if r.NullDereference? then [r] else [r] + MeRun(r.me, calls[1..])
  }

  /** A call has found an address that does not start with 0. */
  predicate Found(r: MeResult) {
    r.MeResult? && r.me.netId[0] != 0
  }

  /**
    Once a call has found an address that does not start with 0, every later call
    is reached and returns it with the port of the call that found it, whatever
    port is asked for and whatever the interfaces are by then.
   */
  lemma {:induction false} FoundOnce(me: AmsAddr, calls: seq<MeCall>, i: nat, j: nat)
    requires i < |MeRun(me, calls)| && Found(MeRun(me, calls)[i]) && i <= j < |calls|
    ensures |MeRun(me, calls)| == |calls|
    ensures MeRun(me, calls)[j] == MeResult(0, MeRun(me, calls)[i].me)
    decreases |calls|
  {
    var r := Me(me, calls[0].list, calls[0].port);
    if i > 0 {
      FoundOnce(r.me, calls[1..], i - 1, j - 1);
    } else if |calls| > 1 {
      assert Me(r.me, calls[1].list, calls[1].port) == MeResult(0, r.me);
      FoundOnce(r.me, calls[1..], 0, if j > 0 then j - 1 else 0);
    }
  }

  /** An interface without an address in front of the first eligible one: only one of the two finds it. */
  lemma AddresslessFirst(sAddr: u32, port: int, before: NetId)
    ensures var l := [Interface("tun0", None), Interface("eth0", Some(Inet(sAddr)))];
      && !Addressed(l) && Eligible(l[1])
      && Me(AmsAddr([0, 0, 0, 0, 0, 0], 0), Some(l), port) == NullDereference
      && Local(Some(l), before) == (0, IdOf(l[1]))
  {
    var l := [Interface("tun0", None), Interface("eth0", Some(Inet(sAddr)))];
    assert FirstEligible(l) == 1;
  }

  /** A host with nothing but its loopback interface. */
  lemma OnlyLoopback(sAddr: u32, port: int, before: NetId)
    ensures var l := [Interface("lo", Some(Inet(sAddr)))];
      && Addressed(l)
      && Me(AmsAddr([0, 0, 0, 0, 0, 0], 0), Some(l), port) == MeResult(0xa, AmsAddr([0, 0, 0, 0, 0, 0], 0))
      && Local(Some(l), before) == (0, FALLBACK)
  {
    var l := [Interface("lo", Some(Inet(sAddr)))];
    assert FirstEligible(l) == 1;
  }
}
