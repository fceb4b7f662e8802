/** What runs of packet reads and writes do to a byte stream: src/ads_io.c. */
module Framing {
  import opened Bytes
  import opened AdsH
  import opened Kernel
  import opened AdsIo

  /** A packet with its TCP header: the length field counts what follows it. */
  predicate IsFrame(f: seq<byte>) {
    |f| >= TCP_HEADER && |f| == TCP_HEADER + PacketLength(f)
  }

  predicate AreFrames(frames: seq<seq<byte>>) {
    forall i :: 0 <= i < |frames| ==> IsFrame(frames[i])
  }

  /** What the reader leaves in the buffer for a packet of more than 8192 bytes. */
  function Truncated(f: seq<byte>): seq<byte>
    requires |f| > MAXDATALEN
  {
    f[..2] + Le32(MAXDATALEN - TCP_HEADER) + f[6..DATA] + [OVERSIZED, 0, 0, 0, 0, 0, 0, 0]
      + f[46..MAXDATALEN - 1] + [f[|f| - 1]]
  }

  /** The read succeeded with this packet: byte for byte, or truncated and flagged. */
  ghost predicate Delivers(r: ReadResult, f: seq<byte>) {
    && r.rc == |f| && r.taken == |f| && |r.image| == MAXDATALEN
    && if |f| <= MAXDATALEN then r.error == 0 && r.image[..|f|] == f
       else r.error == OVERSIZED && r.image == Truncated(f)
  }

  /** `n` reads one after another on the same interface and buffer. */
  ghost function Reads(input: seq<Event>, timeout: int, image: seq<byte>, n: nat): (rs: seq<ReadResult>)
    requires |image| == MAXDATALEN
    ensures |rs| == n
    decreases n
  {
    if n == 0 then []
    else var r := Read(input, timeout, image); [r] + Reads(r.input, timeout, r.image, n - 1)
  }

  function Successes(rs: seq<ReadResult>): nat {
    if rs == [] then 0 else (if rs[0].rc > 0 then 1 else 0) + Successes(rs[1..])
  }

  /** The reads that succeed deliver these packets, in order and from the first on. */
  ghost predicate Follows(rs: seq<ReadResult>, frames: seq<seq<byte>>) {
    if rs == [] then true
    else if rs[0].rc > 0 then frames != [] && Delivers(rs[0], frames[0]) && Follows(rs[1..], frames[1..])
    else Follows(rs[1..], frames)
  }

  /** The input that is left after the reads. */
  function LeftOver(input: seq<Event>, rs: seq<ReadResult>): seq<Event> {
    if rs == [] then input else rs[|rs| - 1].input
  }

  /** Packets written one after another. */
  function WriteAll(s: Socket, frames: seq<seq<byte>>): Socket
    decreases frames
  {
    if frames == [] then s else WriteAll(Write(0, s, frames[0]).socket, frames[1..])
  }

  /** Each packet's bytes come, without anything between them, within that packet's budget. */
  ghost predicate InTime(frames: seq<seq<byte>>, input: seq<Event>, timeout: int) {
    frames != [] ==>
      && |frames[0]| <= |input|
      && Arrives(input, BudgetOf(timeout), |frames[0]|)
      && InTime(frames[1..], input[|frames[0]|..], timeout)
  }

  // ---------------------------------------------------------------- one read

  lemma {:induction false} TakeBytes(input: seq<Event>, n: nat)
    requires n <= |input| && forall i :: 0 <= i < n ==> input[i].what.Arrival?
    ensures StreamBytes(input) == Data(input, n) + StreamBytes(input[n..])
  {
    if n == 0 {
      assert input[0..] == input;
    } else {
      TakeBytes(input[1..], n - 1);
      assert input[1..][n - 1..] == input[n..];
      assert Data(input, n) == [input[0].what.data] + Data(input[1..], n - 1);
    }
  }

  lemma {:induction false} StopKeepsBytes(input: seq<Event>, budget: Budget)
    requires NextByte(input, budget).rc != 1
    ensures StreamBytes(NextByte(input, budget).input) == StreamBytes(input)
    ensures NextByte(input, budget).rc in {0, -1, -2}
  {
  }

  lemma StoppedFails(input: seq<Event>, budget: Budget, r: nat, image: seq<byte>)
    requires r <= |input| && |image| == MAXDATALEN
    requires Arrives(input, budget, r) && !Arrives(input, budget, r + 1)
    ensures Stopped(input, budget, r, image).rc in {0, -1, -2}
  {
  }

  lemma {:induction false} StoppedTakes(input: seq<Event>, budget: Budget, r: nat, image: seq<byte>)
    requires r <= |input| && |image| == MAXDATALEN
    requires Arrives(input, budget, r) && !Arrives(input, budget, r + 1)
    ensures StreamBytes(input) == Data(input, r) + StreamBytes(Stopped(input, budget, r, image).input)
    ensures Stopped(input, budget, r, image).rc in {0, -1, -2}
  {
    NextArrives(input, budget, r);
    StopKeepsBytes(input[r..], Spend(budget, Waits(input, r)));
    TakeBytes(input, r);
  }

  /**
    A read takes exactly `taken` bytes off the stream and nothing is lost or
    duplicated.  It returns that count when it succeeds; when it fails the
    bytes it took are the ones it stored, and the count is dropped.
   */
  lemma {:induction false} ReadTakes(input: seq<Event>, timeout: int, image: seq<byte>)
    requires |image| == MAXDATALEN
    ensures var r := Read(input, timeout, image); var bytes := StreamBytes(input);
      && r.taken <= |bytes| && StreamBytes(r.input) == bytes[r.taken..]
      && (r.rc > 0 ==> r.rc == r.taken && IsFrame(bytes[..r.taken]) && r.image == Received(image, bytes[..r.taken])
                       && (r.error == if r.taken > MAXDATALEN then OVERSIZED else 0))
      && (r.rc <= 0 ==> r.rc in {0, -1, -2} && r.image == Clamped(image, bytes[..r.taken])
                        && (r.taken < TCP_HEADER || r.taken < TCP_HEADER + PacketLength(bytes)))
  {
    var r := ReadCases(input, timeout, image);
    TakeBytes(input, r);
    if TCP_HEADER <= r {
      assert Data(input, TCP_HEADER) == StreamBytes(input)[..TCP_HEADER];
      if r == TCP_HEADER + PacketLength(Data(input, TCP_HEADER)) {
        assert PacketLength(Data(input, r)) == PacketLength(StreamBytes(input));
        return;
      }
    }
    StoppedTakes(input, BudgetOf(timeout), r, image);
  }

  lemma TruncatedIs(image: seq<byte>, f: seq<byte>)
    requires |image| == MAXDATALEN && |f| > MAXDATALEN
    ensures Received(image, f) == Truncated(f)
  {
  }

  /** A read that starts at a packet delivers that packet, or stops inside it. */
  lemma {:induction false} ReadFramed(input: seq<Event>, timeout: int, image: seq<byte>, f: seq<byte>, more: seq<byte>)
    requires |image| == MAXDATALEN && IsFrame(f) && StreamBytes(input) <= f + more
    ensures var r := Read(input, timeout, image);
      if r.rc > 0 then Delivers(r, f) && r.image == Received(image, f) else r.taken < |f|
  {
    var r := Read(input, timeout, image);
    var bytes := StreamBytes(input);
    ReadTakes(input, timeout, image);
    if r.taken >= TCP_HEADER {
      assert forall i :: 0 <= i < TCP_HEADER ==> bytes[i] == (f + more)[i] == f[i];
      if r.rc > 0 {
        assert bytes[..r.taken] == f;
        if |f| > MAXDATALEN {
          TruncatedIs(image, f);
        }
      }
    }
  }

  /**
    The buffer after a packet of `total` bytes, byte by byte.  Below the limit:
    the packet, then the old contents.  At or above it: 8191 bytes of prefix and
    the packet's last byte; above it bytes 2..5 and 38..45 are overwritten as well.
   */
  lemma BufferExact(image: seq<byte>, f: seq<byte>, i: nat)
    requires |image| == MAXDATALEN && |f| > 0 && i < MAXDATALEN
    ensures |f| <= MAXDATALEN ==> Received(image, f)[i] == if i < |f| then f[i] else image[i]
    ensures |f| > MAXDATALEN ==>
      Received(image, f)[i] == (
        if 2 <= i < 6 then Le32(8186)[i - 2]
        else if i == 38 then 0xe
        else if 38 < i < 46 then 0
        else if i < 8191 then f[i]
        else f[|f| - 1])
  {
  }

  lemma {:induction false} WaitsPrefix(input: seq<Event>, d: nat, n: nat)
    requires n <= d <= |input|
    ensures Waits(input[..d], n) == Waits(input, n)
    decreases n
  {
    if n > 0 {
      WaitsPrefix(input, d, n - 1);
    }
  }

  lemma ArrivesInPrefix(input: seq<Event>, budget: Budget, d: nat)
    requires d <= |input| && Arrives(input, budget, d)
    ensures Arrives(input[..d], budget, d) && Data(input[..d], d) == Data(input, d)
    ensures TCP_HEADER <= d ==> Data(input[..d], TCP_HEADER) == Data(input, TCP_HEADER)
  {
    WaitsPrefix(input, d, d);
  }

  /** Nothing comes after the events that a read took, and it does not get a whole packet from them. */
  lemma {:induction false} StopsAtEnd(input: seq<Event>, timeout: int, image: seq<byte>)
    requires |image| == MAXDATALEN && Within(input, |input|) && !Complete(input, |input|)
    requires Arrives(input, BudgetOf(timeout), |input|)
    ensures var r := Read(input, timeout, image);
      r.rc <= 0 && r.taken == |input| && r.image == Clamped(image, Data(input, |input|))
  {
    ReadSkips(input, BudgetOf(timeout), image, |input|);
  }

  lemma EndsComplete(input: seq<Event>, timeout: int, image: seq<byte>)
    requires |image| == MAXDATALEN && Complete(input, |input|) && Arrives(input, BudgetOf(timeout), |input|)
    ensures var r := Read(input, timeout, image); var n := |input|;
      && r.rc == n && r.taken == n && r.image == Received(image, Data(input, n))
      && r.error == if n > MAXDATALEN then OVERSIZED else 0
  {
    ReadSkips(input, BudgetOf(timeout), image, |input|);
  }

  /**
    A read depends only on the events it takes: without the ones behind them it
    takes the same bytes, leaves the same buffer, and succeeds exactly when it did.
   */
  lemma {:induction false} ReadPrefix(input: seq<Event>, timeout: int, image: seq<byte>)
    requires |image| == MAXDATALEN
    ensures var r := Read(input, timeout, image);
      && r.taken <= |input|
      && StreamBytes(input) == StreamBytes(input[..r.taken]) + StreamBytes(r.input)
      && var q := Read(input[..r.taken], timeout, image);
      q.taken == r.taken && q.image == r.image && (q.rc > 0 <==> r.rc > 0)
      && (r.rc > 0 ==> q.rc == r.rc && q.error == r.error)
  {
    var d := ReadCases(input, timeout, image);
    var taken := input[..d];
    ArrivesInPrefix(input, BudgetOf(timeout), d);
    TakenBytes(input, timeout, d);
    if Complete(input, d) {
      EndsComplete(taken, timeout, image);
    } else {
      StoppedFails(input, BudgetOf(timeout), d, image);
      StoppedTakes(input, BudgetOf(timeout), d, image);
      StopsAtEnd(taken, timeout, image);
    }
  }

  lemma {:induction false} TakenBytes(input: seq<Event>, timeout: int, d: nat)
    requires d <= |input| && Arrives(input, BudgetOf(timeout), d)
    ensures StreamBytes(input[..d]) == Data(input, d) && StreamBytes(input) == Data(input, d) + StreamBytes(input[d..])
  {
    TakeBytes(input, d);
    TakeBytes(input[..d], d);
    assert input[..d][d..] == [];
    assert Data(input[..d], d) == Data(input, d);
  }

  // ---------------------------------------------------------------- runs of reads

  /** No failed read of the run took a byte. */
  ghost predicate CleanFailures(rs: seq<ReadResult>) {
    forall i :: 0 <= i < |rs| && rs[i].rc <= 0 ==> rs[i].taken == 0
  }

  /** One read of an aligned stream that does not fail half-way leaves it aligned. */
  lemma {:induction false} AlignedStep(frames: seq<seq<byte>>, input: seq<Event>, timeout: int, image: seq<byte>)
    requires |image| == MAXDATALEN && AreFrames(frames) && StreamBytes(input) == Concat(frames)
    ensures var r := Read(input, timeout, image);
      && (r.rc > 0 ==> frames != [] && Delivers(r, frames[0]) && StreamBytes(r.input) == Concat(frames[1..]))
      && (r.rc <= 0 && r.taken == 0 ==> StreamBytes(r.input) == Concat(frames))
  {
    var r := Read(input, timeout, image);
    ReadTakes(input, timeout, image);
    if r.rc > 0 {
      assert frames != [];
      assert StreamBytes(input) == frames[0] + Concat(frames[1..]);
      ReadFramed(input, timeout, image, frames[0], Concat(frames[1..]));
    }
  }

  /**
    Boundary alignment: while every read that fails has taken no byte, each read
    that succeeds delivers the next packet of the list, and the stream is always
    left at the start of the packet after it.
   */
  lemma {:induction false} BoundaryAlignment(frames: seq<seq<byte>>, input: seq<Event>, timeout: int,
                                             image: seq<byte>, n: nat)
    requires |image| == MAXDATALEN && AreFrames(frames) && StreamBytes(input) == Concat(frames)
    requires CleanFailures(Reads(input, timeout, image, n))
    ensures var rs := Reads(input, timeout, image, n);
      && Follows(rs, frames)
      && Successes(rs) <= |frames|
      && StreamBytes(LeftOver(input, rs)) == Concat(frames[Successes(rs)..])
    decreases n
  {
    if n == 0 {
      assert frames[0..] == frames;
    } else {
      var r, rest := FirstRead(input, timeout, image, n);
      CleanRest(r, rest);
      AlignedStep(frames, input, timeout, image);
      var next := if r.rc > 0 then frames[1..] else frames;
      BoundaryAlignment(next, r.input, timeout, r.image, n - 1);
      FollowsMore(input, r, rest, frames, next);
    }
  }

  lemma CleanRest(r: ReadResult, rest: seq<ReadResult>)
    requires CleanFailures([r] + rest)
    ensures CleanFailures(rest) && (r.rc <= 0 ==> r.taken == 0)
  {
    var rs := [r] + rest;
    assert rs[0] == r;
    assert forall i :: 0 <= i < |rest| ==> rest[i] == rs[i + 1];
  }

  /** One more read in front of a run. */
  lemma {:induction false} FollowsMore(input: seq<Event>, r: ReadResult, rest: seq<ReadResult>,
                                       frames: seq<seq<byte>>, next: seq<seq<byte>>)
    requires if r.rc > 0 then frames != [] && Delivers(r, frames[0]) && next == frames[1..] else next == frames
    requires Follows(rest, next) && Successes(rest) <= |next|
    requires StreamBytes(LeftOver(r.input, rest)) == Concat(next[Successes(rest)..])
    ensures var rs := [r] + rest;
      && Follows(rs, frames)
      && Successes(rs) <= |frames|
      && StreamBytes(LeftOver(input, rs)) == Concat(frames[Successes(rs)..])
  {
    var rs := [r] + rest;
    assert rs[0] == r && rs[1..] == rest;
    assert LeftOver(input, rs) == LeftOver(r.input, rest);
    assert next[Successes(rest)..] == frames[Successes(rs)..];
  }

  ghost predicate OnBoundary(bytes: seq<byte>, frames: seq<seq<byte>>) {
    exists j :: 0 <= j <= |frames| && bytes == Concat(frames[j..])
  }

  lemma {:induction false} ShorterTail(frames: seq<seq<byte>>, j: nat)
    requires j <= |frames|
    ensures 0 < j ==> |Concat(frames[j..])| + |frames[0]| <= |Concat(frames)|
    ensures j == 0 ==> Concat(frames[j..]) == Concat(frames)
  {
    assert frames == frames[..j] + frames[j..];
    ConcatAppend(frames[..j], frames[j..]);
    assert j == 0 ==> frames[j..] == frames;
  }

  /**
    A failed read that starts at a packet leaves the stream exactly `taken` bytes
    into it; the next read starts at a packet exactly when no byte was taken.
   */
  lemma {:induction false} PartialFailure(frames: seq<seq<byte>>, input: seq<Event>, timeout: int, image: seq<byte>)
    requires |image| == MAXDATALEN && AreFrames(frames) && frames != [] && StreamBytes(input) == Concat(frames)
    requires Read(input, timeout, image).rc <= 0
    ensures var r := Read(input, timeout, image);
      && r.taken < |frames[0]|
      && StreamBytes(r.input) == frames[0][r.taken..] + Concat(frames[1..])
      && (OnBoundary(StreamBytes(r.input), frames) <==> r.taken == 0)
  {
    var r := Read(input, timeout, image);
    ReadTakes(input, timeout, image);
    ReadFramed(input, timeout, image, frames[0], Concat(frames[1..]));
    InsideFirst(frames, r.taken, StreamBytes(r.input));
  }

  /** Only the start of a packet is a boundary. */
  lemma {:induction false} InsideFirst(frames: seq<seq<byte>>, taken: nat, left: seq<byte>)
    requires frames != [] && taken < |frames[0]| && taken <= |Concat(frames)| && left == Concat(frames)[taken..]
    ensures left == frames[0][taken..] + Concat(frames[1..])
    ensures OnBoundary(left, frames) <==> taken == 0
  {
    if taken == 0 {
      assert frames[0..] == frames;
      assert left == Concat(frames[0..]);
    } else if OnBoundary(left, frames) {
      var j :| 0 <= j <= |frames| && left == Concat(frames[j..]);
      ShorterTail(frames, j);
      assert false;
    }
  }

  /**
    One write: it sends some prefix of the packet, returns 1 exactly when that is all
    of it, 0 for less, and -4 without sending when the interface has its flag set;
    the error is the one `send` gave.
   */
  lemma WriteOutcome(flag: int, s: Socket, packet: seq<byte>) returns (k: nat)
    requires packet != []
    ensures k <= |packet|
    ensures var w := Write(flag, s, packet);
      && w.socket.sent == s.sent + packet[..k] && w.socket.input == s.input
      && (flag != 0 ==> w.rc == -4 && w.error == 0 && k == 0 && w.socket.sends == s.sends)
      && (flag == 0 ==> w.rc == if k == |packet| then 1 else 0)
      && (flag == 0 ==> w.socket.sends == if s.sends == [] then [] else s.sends[1..])
      && (w.rc == 0 ==> s.sends != [] && w.error == s.sends[0].errno)
    ensures flag == 0 && (s.sends == [] || (s.sends[0].Accept? && s.sends[0].limit >= |packet|)) ==> k == |packet|
    ensures flag == 0 && s.sends != [] && s.sends[0].SendError? ==> k == 0
    ensures flag == 0 && s.sends != [] && s.sends[0].Accept? && s.sends[0].limit < |packet| ==> k == s.sends[0].limit
  {
    var w := Write(flag, s, packet);
    k := |w.socket.sent| - |s.sent|;
  }

  lemma {:induction false} WriteAllSends(s: Socket, frames: seq<seq<byte>>)
    requires s.sends == []
    ensures WriteAll(s, frames) == s.(sent := s.sent + Concat(frames))
    decreases frames
  {
    if frames == [] {
      assert s.sent + [] == s.sent;
    } else {
      WriteAllSends(Write(0, s, frames[0]).socket, frames[1..]);
      assert (s.sent + frames[0]) + Concat(frames[1..]) == s.sent + Concat(frames);
    }
  }

  lemma SuccessArrives(input: seq<Event>, timeout: int, image: seq<byte>)
    requires |image| == MAXDATALEN && Read(input, timeout, image).rc > 0
    ensures var r := Read(input, timeout, image);
      r.taken <= |input| && Arrives(input, BudgetOf(timeout), r.taken) && r.input == input[r.taken..]
  {
    var r := ReadCases(input, timeout, image);
    if !Arrives(input, BudgetOf(timeout), r + 1) {
      StoppedFails(input, BudgetOf(timeout), r, image);
    }
  }

  lemma SamePrefix(a: seq<byte>, rest: seq<byte>, f: seq<byte>)
    requires |a| == |f| && f <= a + rest
    ensures a == f
  {
  }

  /** Bytes that are a packet are complete, and no fewer bytes are. */
  lemma HeaderOfData(input: seq<Event>, n: nat)
    requires n <= |input| && IsFrame(Data(input, n))
    ensures Within(input, n) && Complete(input, n)
  {
  }

  lemma {:induction false} ArrivingSucceeds(input: seq<Event>, timeout: int, image: seq<byte>, f: seq<byte>)
    requires |image| == MAXDATALEN && IsFrame(f) && f <= StreamBytes(input)
    requires |f| <= |input| && Arrives(input, BudgetOf(timeout), |f|)
    ensures Read(input, timeout, image).rc > 0
  {
    TakeBytes(input, |f|);
    SamePrefix(Data(input, |f|), StreamBytes(input[|f|..]), f);
    HeaderOfData(input, |f|);
    ReadSkips(input, BudgetOf(timeout), image, |f|);
  }

  /** A read that starts at a packet succeeds exactly when the packet comes in time. */
  lemma {:induction false} SucceedsIff(input: seq<Event>, timeout: int, image: seq<byte>, f: seq<byte>)
    requires |image| == MAXDATALEN && IsFrame(f) && f <= StreamBytes(input)
    ensures var r := Read(input, timeout, image);
      && (r.rc > 0 <==> |f| <= |input| && Arrives(input, BudgetOf(timeout), |f|))
      && (r.rc > 0 ==> r.input == input[|f|..])
  {
    var bytes := StreamBytes(input);
    if Read(input, timeout, image).rc > 0 {
      assert bytes == f + bytes[|f|..];
      ReadFramed(input, timeout, image, f, bytes[|f|..]);
      SuccessArrives(input, timeout, image);
    } else if |f| <= |input| && Arrives(input, BudgetOf(timeout), |f|) {
      ArrivingSucceeds(input, timeout, image, f);
    }
  }

  /** One read per packet: none of them fails exactly when every packet comes in time. */
  lemma {:induction false} AllSucceedIff(frames: seq<seq<byte>>, input: seq<Event>, timeout: int, image: seq<byte>)
    requires |image| == MAXDATALEN && AreFrames(frames) && StreamBytes(input) == Concat(frames)
    ensures Successes(Reads(input, timeout, image, |frames|)) == |frames| <==> InTime(frames, input, timeout)
    decreases |frames|
  {
    if frames != [] {
      var r, rest := FirstRead(input, timeout, image, |frames|);
      SucceedsIff(input, timeout, image, frames[0]);
      if r.rc > 0 {
        AlignedStep(frames, input, timeout, image);
        AllSucceedIff(frames[1..], r.input, timeout, r.image);
      } else {
        AtMost(rest);
      }
    }
  }

  lemma FirstRead(input: seq<Event>, timeout: int, image: seq<byte>, n: nat)
    returns (r: ReadResult, rest: seq<ReadResult>)
    requires |image| == MAXDATALEN && n > 0
    ensures |r.image| == MAXDATALEN && r == Read(input, timeout, image)
    ensures rest == Reads(r.input, timeout, r.image, n - 1)
    ensures Reads(input, timeout, image, n) == [r] + rest
    ensures Successes(Reads(input, timeout, image, n)) == (if r.rc > 0 then 1 else 0) + Successes(rest)
  {
    r := Read(input, timeout, image);
    rest := Reads(r.input, timeout, r.image, n - 1);
    assert ([r] + rest)[1..] == rest;
  }

  lemma {:induction false} AtMost(rs: seq<ReadResult>)
    ensures Successes(rs) <= |rs|
    ensures Successes(rs) == |rs| ==> CleanFailures(rs)
  {
    if rs != [] {
      AtMost(rs[1..]);
      assert forall i :: 0 < i < |rs| ==> rs[i] == rs[1..][i - 1];
    }
  }

  /** When all reads succeed, read number `i` delivers packet number `i`. */
  lemma {:induction false} FollowsEach(rs: seq<ReadResult>, frames: seq<seq<byte>>, i: nat)
    requires Follows(rs, frames) && Successes(rs) == |rs| == |frames| && i < |rs|
    ensures Delivers(rs[i], frames[i])
  {
    AtMost(rs[1..]);
    if i > 0 {
      FollowsEach(rs[1..], frames[1..], i - 1);
    }
  }

  /**
    Decoding inverts encoding: packets written one after another and carried
    unchanged to a reader are read back in order, each by one read, and
    afterwards the stream is used up.
   */
  lemma {:induction false} StreamRoundTrip(s: Socket, frames: seq<seq<byte>>, input: seq<Event>, timeout: int,
                                           image: seq<byte>)
    requires |image| == MAXDATALEN && AreFrames(frames)
    requires s.sends == [] && WriteAll(s, frames).sent == s.sent + StreamBytes(input)
    requires InTime(frames, input, timeout)
    ensures var rs := Reads(input, timeout, image, |frames|);
      && (forall i :: 0 <= i < |frames| ==> Delivers(rs[i], frames[i]))
      && StreamBytes(LeftOver(input, rs)) == []
  {
    WriteAllSends(s, frames);
    assert (s.sent + Concat(frames))[|s.sent|..] == Concat(frames);
    assert (s.sent + StreamBytes(input))[|s.sent|..] == StreamBytes(input);
    AllSucceedIff(frames, input, timeout, image);
    var rs := Reads(input, timeout, image, |frames|);
    AtMost(rs);
    BoundaryAlignment(frames, input, timeout, image, |frames|);
    forall i | 0 <= i < |frames|
      ensures Delivers(rs[i], frames[i])
    {
      FollowsEach(rs, frames, i);
    }
  }

  // ---------------------------------------------------------------- bytes that come at once

  /** These bytes arrive without any wait, and nothing after them. */
  function Arriving(bytes: seq<byte>): (input: seq<Event>)
    ensures |input| == |bytes|
  {
    seq(|bytes|, i requires 0 <= i < |bytes| => Event(0, Arrival(bytes[i])))
  }

  lemma {:induction false} NoWaits(bytes: seq<byte>, n: nat)
    requires n <= |bytes|
    ensures Waits(Arriving(bytes), n) == 0
  {
    if n > 0 {
      NoWaits(bytes, n - 1);
    }
  }

  lemma ArrivingComes(bytes: seq<byte>, timeout: int)
    requires timeout >= 0
    ensures StreamBytes(Arriving(bytes)) == bytes && Arrives(Arriving(bytes), BudgetOf(timeout), |bytes|)
  {
    var input := Arriving(bytes);
    TakeBytes(input, |bytes|);
    assert Data(input, |bytes|) == bytes && input[|bytes|..] == [];
    NoWaits(bytes, |bytes|);
  }

  /** A packet that comes at once is read, whatever its size. */
  lemma ReadArriving(f: seq<byte>, timeout: int, image: seq<byte>)
    requires |image| == MAXDATALEN && IsFrame(f) && timeout >= 0
    ensures var r := Read(Arriving(f), timeout, image); Delivers(r, f) && r.input == []
  {
    var input := Arriving(f);
    ArrivingComes(f, timeout);
    SucceedsIff(input, timeout, image, f);
    assert f + [] == f;
    ReadFramed(input, timeout, image, f, []);
  }

  /** From a peer that has shut down nothing is read. */
  lemma NothingComes(timeout: int, image: seq<byte>)
    requires |image| == MAXDATALEN && timeout >= 0
    ensures Read([], timeout, image) == ReadResult(-2, 0, 0, [], 0, image)
  {
    var d := ReadCases([], timeout, image);
    assert Clamped(image, Data([], 0)) == image;
  }

  // ---------------------------------------------------------------- the timeout

  /** The one budget of a packet: no read waits longer, and a read that times out waits that long. */
  lemma OneBudget(input: seq<Event>, timeout: int, image: seq<byte>)
    requires |image| == MAXDATALEN && timeout > 0
    ensures var r := Read(input, timeout, image);
      && r.elapsed <= BudgetOf(timeout).us
      && (r.rc == -1 ==> r.elapsed == BudgetOf(timeout).us)
  {
    var d := ReadCases(input, timeout, image);
    if d > 0 {
      assert Waits(input, d) <= BudgetOf(timeout).us;
    }
  }

  /** The event after the first `n` ones comes when the budget is used up. */
  predicate Late(input: seq<Event>, budget: Budget, n: nat)
    requires n < |input|
  {
    budget.Micros? && budget.us < Waits(input, n + 1)
  }

  /**
    Why a read fails, from the event behind the bytes it took: it times out if and
    only if that event is late, it reports a shut-down if and only if that is what
    comes in time (or nothing more comes), and otherwise it reports the error.
   */
  lemma WhyReadFails(input: seq<Event>, timeout: int, image: seq<byte>)
    requires |image| == MAXDATALEN && timeout >= 0 && Read(input, timeout, image).rc <= 0
    ensures var r, budget := Read(input, timeout, image), BudgetOf(timeout);
      && r.taken <= |input| && Arrives(input, budget, r.taken)
      && if r.taken == |input| then r.rc == -2 && r.error == 0
         else if Late(input, budget, r.taken) then r.rc == -1 && r.error == 0
         else match input[r.taken].what
              case Arrival(_) => false
              case PeerShutdown => r.rc == -2 && r.error == 0
              case RecvError(e) => r.rc == 0 && r.error == e
              case SelectError(e) => r.rc == 0 && r.error == e
  {
    var d := ReadCases(input, timeout, image);
    NextArrives(input, BudgetOf(timeout), d);
    if d < |input| {
      assert input[d..][0] == input[d];
    }
  }

  /** A timeout of `ms` milliseconds lasts that long exactly for whole seconds. */
  lemma BudgetExact(ms: int)
    ensures BudgetOf(ms) == (if ms == 0 then Forever else Micros(1000 * ms)) <==> ms % 1000 == 0
    ensures ms > 0 ==> BudgetOf(ms).us == 1000 * ms + 999_000 * (ms % 1000)
  {
    if ms > 0 {
      var q, r := ms / 1000, ms % 1000;
      assert ms == 1000 * q + r && 0 <= r < 1000;
      assert BudgetOf(ms) == Micros(q * 1_000_000 + r * 1_000_000);
    } else if ms < 0 {
      var q, r := -ms / 1000, -ms % 1000;
      assert -ms == 1000 * q + r && 0 <= r < 1000;
      assert BudgetOf(ms) == Micros(-q * 1_000_000 - r * 1_000_000);
      Negated(ms, q, r);
    }
  }

  lemma Negated(ms: int, q: int, r: int)
    requires -ms == 1000 * q + r && 0 <= r < 1000
    ensures ms % 1000 == 0 <==> r == 0
  {
    if r == 0 {
      assert ms == 1000 * -q;
    } else {
      assert ms == 1000 * (-q - 1) + (1000 - r);
    }
  }

  /** 1500 ms last 501 s: a byte that comes after 400 s is still read. */
  lemma FractionLastsLonger(image: seq<byte>, d: byte)
    requires |image| == MAXDATALEN
    ensures NextByte([Event(400_000_000, Arrival(d))], BudgetOf(1500)).rc == 1
    ensures NextByte([Event(400_000_000, Arrival(d))], BudgetOf(2000)).rc == -1
  {
  }

  /** A negative timeout makes every read fail at once without taking a byte. */
  lemma NegativeTimeout(input: seq<Event>, timeout: int, image: seq<byte>)
    requires |image| == MAXDATALEN && timeout < 0
    ensures Read(input, timeout, image) == ReadResult(0, 22, 0, input, 0, image)
  {
  }
}
