/** What the return codes of the calls in src/ads.c say about the exchange behind them. */
module Outcomes {
  import opened Bytes
  import opened AdsH
  import opened Kernel
  import opened AdsIo
  import opened Ads
  import opened Framing

  lemma SignedZero(u: u32)
    ensures ToInt32(u) == 0 <==> u == 0
  {
  }

  /**
    A call that got as far as reading had no error flag, so the reader's codes for
    a missing or flagged interface, which the translator does not know and would
    report as success, cannot come up; and a failed write is never reported as 0.
   */
  lemma ExchangeCodes(flag: int, s: Socket, timeout: int, frame: seq<byte>, image: seq<byte>)
    requires |image| == MAXDATALEN
    ensures var x := Exchange(flag, s, timeout, frame, image);
      && (x.sent ==> flag == 0 && (x.rc > 0 || x.rc in {0, -1, -2}) && x.rc !in {-11, -12})
      && (x.sent ==> x.rc < 0x1_0000_0006)
      && (x.sent && x.rc <= 0 ==>
            TranslateRdError(x.rc) == (if x.rc == 0 then 0x1a else if x.rc == -1 then 0x15 else 0x50a))
      && (x.sent && x.rc > 0 ==> x.error == if x.rc > 8192 then 0xe else 0)
      && (x.sent && x.rc < 0 ==> x.error == 0)
      && (!x.sent ==> TranslateWrError(x.rc) == if flag == 0 then 0x1a else 0x1)
    ensures TranslateRdError(-11) == 0 && TranslateRdError(-12) == 0
    ensures TranslateRdError(-3) == TranslateRdError(-4) == TranslateWrError(-3) == 0x1
  {
    var w := Write(flag, s, frame);
    if w.rc > 0 {
      ReadTakes(w.socket.input, timeout, image);
      NegativeCodes(w.socket.input, timeout, image);
    }
  }

  /** A timeout or a shut-down peer leaves the error code 0. */
  lemma NegativeCodes(input: seq<Event>, timeout: int, image: seq<byte>)
    requires |image| == MAXDATALEN
    ensures var r := Read(input, timeout, image); r.rc < 0 ==> r.error == 0
  {
    var r := ReadCases(input, timeout, image);
  }

  /** A complete packet that fits the buffer. */
  predicate Whole(rc: int) { 0 < rc <= MAXDATALEN }

  /** When `ADSreadBytes` returns 0 once its request was sent. */
  lemma ReadSucceedsIff(flag: int, s: Socket, timeout: int, frame: seq<byte>, image: seq<byte>, length: u32,
                        hasBuffer: bool)
    requires |image| == MAXDATALEN && Exchange(flag, s, timeout, frame, image).sent
    ensures var x := Exchange(flag, s, timeout, frame, image);
      DecodeRead(x.rc, x.error, x.image, length, hasBuffer).ret == 0 <==>
        || (Whole(x.rc) && CommandIn(x.image) == CMD_READ && !(hasBuffer && LengthIn(x.image) > length)
            && ResultIn(x.image) == 0)
        || (Whole(x.rc) && CommandIn(x.image) != CMD_READ && ErrorIn(x.image) == 0)
        || x.rc > MAXDATALEN
  {
    var x := Exchange(flag, s, timeout, frame, image);
    ExchangeCodes(flag, s, timeout, frame, image);
    SignedZero(ResultIn(x.image));
    SignedZero(ErrorIn(x.image));
  }

  /** The same for `ADSreadWriteBytes`. */
  lemma ReadWriteSucceedsIff(flag: int, s: Socket, timeout: int, frame: seq<byte>, image: seq<byte>, length: u32)
    requires |image| == MAXDATALEN && Exchange(flag, s, timeout, frame, image).sent
    ensures var x := Exchange(flag, s, timeout, frame, image);
      DecodeReadWrite(x.rc, x.error, x.image, length).ret == 0 <==>
        || (Whole(x.rc) && CommandIn(x.image) == CMD_READ_WRITE && LengthIn(x.image) <= length
            && ResultIn(x.image) == 0)
        || (Whole(x.rc) && CommandIn(x.image) != CMD_READ_WRITE && ErrorIn(x.image) == 0)
        || x.rc > MAXDATALEN
  {
    var x := Exchange(flag, s, timeout, frame, image);
    ExchangeCodes(flag, s, timeout, frame, image);
    SignedZero(ResultIn(x.image));
    SignedZero(ErrorIn(x.image));
  }

  /** The same for `ADSreadState` and `ADSreadDeviceInfo`, which have no size check. */
  lemma StateSucceedsIff(flag: int, s: Socket, timeout: int, frame: seq<byte>, image: seq<byte>)
    requires |image| == MAXDATALEN && Exchange(flag, s, timeout, frame, image).sent
    ensures var x := Exchange(flag, s, timeout, frame, image);
      && (DecodeState(x.rc, x.error, x.image).ret == 0 <==>
            || (Whole(x.rc)
                && (if CommandIn(x.image) == CMD_READ_STATE then ResultIn(x.image) else ErrorIn(x.image)) == 0)
            || x.rc > MAXDATALEN)
      && (DecodeDevInfo(x.rc, x.error, x.image).ret == 0 <==>
            || (Whole(x.rc)
                && (if CommandIn(x.image) == CMD_READ_DEV_INFO then ResultIn(x.image) else ErrorIn(x.image)) == 0)
            || x.rc > MAXDATALEN)
  {
    var x := Exchange(flag, s, timeout, frame, image);
    ExchangeCodes(flag, s, timeout, frame, image);
    SignedZero(ResultIn(x.image));
    SignedZero(ErrorIn(x.image));
  }

  /** The size test of `ADSwriteBytes`. */
  lemma SizeTest(rc: int)
    requires -2 <= rc < 0x1_0000_0006
    ensures ToSizeT(rc) >= DATA <==> rc < 0 || rc >= DATA
  {
  }

  /**
    When `ADSwriteBytes` returns 0: its size test is passed by the negative codes
    and failed by short packets, so a timeout is judged by what the buffer held.
   */
  lemma WriteSucceedsIff(flag: int, s: Socket, timeout: int, frame: seq<byte>, image: seq<byte>)
    requires |image| == MAXDATALEN && Exchange(flag, s, timeout, frame, image).sent
    ensures var x := Exchange(flag, s, timeout, frame, image);
      DecodeWrite(x.rc, x.error, x.image) == 0 <==>
        || 0 < x.rc < DATA
        || ((DATA <= x.rc <= MAXDATALEN || x.rc in {-1, -2}) && ResultIn(x.image) == 0)
        || (x.rc > MAXDATALEN && ErrorIn(x.image) == 0)
  {
    var x := Exchange(flag, s, timeout, frame, image);
    ExchangeCodes(flag, s, timeout, frame, image);
    SignedZero(ResultIn(x.image));
    SignedZero(ErrorIn(x.image));
    SizeTest(x.rc);
  }

  /** A read that fails leaves a word of the buffer as it was when it did not get that far. */
  lemma StaleWord(input: seq<Event>, timeout: int, image: seq<byte>, at: nat)
    requires |image| == MAXDATALEN && at + 4 <= MAXDATALEN
    requires var r := Read(input, timeout, image); r.rc <= 0 && r.taken <= at
    ensures Get32(Read(input, timeout, image).image, at) == Get32(image, at)
  {
    ReadTakes(input, timeout, image);
  }

  /**
    A write that gets no whole reply, because the time is up or the peer has shut
    down, returns the result word of its buffer; as long as no more than 38 bytes
    came that is the word of the previous reply, and so the code that tells what
    happened is returned exactly when that word happens to be it.
   */
  lemma WriteTimeout(flag: int, s: Socket, timeout: int, frame: seq<byte>, image: seq<byte>)
    requires |image| == MAXDATALEN
    requires var x := Exchange(flag, s, timeout, frame, image); x.sent && x.rc in {-1, -2}
    ensures var x := Exchange(flag, s, timeout, frame, image);
      && DecodeWrite(x.rc, x.error, x.image) == ToInt32(ResultIn(x.image))
      && (Read(s.input, timeout, image).taken <= DATA ==> ResultIn(x.image) == ResultIn(image))
      && var code := TranslateRdError(x.rc);
      (DecodeWrite(x.rc, x.error, x.image) == code <==> ResultIn(x.image) == code)
  {
    ExchangeCodes(flag, s, timeout, frame, image);
    SizeTest(-1);
    SizeTest(-2);
    if Read(s.input, timeout, image).taken <= DATA {
      StaleWord(s.input, timeout, image, DATA);
    }
  }

  /** The same for `ADSwriteControl` and the error word, which is stale while no more than 30 bytes came. */
  lemma ControlTimeout(flag: int, s: Socket, timeout: int, frame: seq<byte>, image: seq<byte>)
    requires |image| == MAXDATALEN
    requires var x := Exchange(flag, s, timeout, frame, image); x.sent && x.rc <= 0
    ensures var x := Exchange(flag, s, timeout, frame, image);
      && DecodeControl(x.rc, x.error, x.image) == ToInt32(ErrorIn(x.image))
      && (Read(s.input, timeout, image).taken <= 30 ==> ErrorIn(x.image) == ErrorIn(image))
  {
    if Read(s.input, timeout, image).taken <= 30 {
      StaleWord(s.input, timeout, image, 30);
    }
  }

  /** When `ADSwriteControl` returns 0: a failed read is judged by the error word of the stale buffer. */
  lemma ControlSucceedsIff(flag: int, s: Socket, timeout: int, frame: seq<byte>, image: seq<byte>)
    requires |image| == MAXDATALEN && Exchange(flag, s, timeout, frame, image).sent
    ensures var x := Exchange(flag, s, timeout, frame, image);
      DecodeControl(x.rc, x.error, x.image) == 0 <==>
        if Whole(x.rc) then ResultIn(x.image) == 0 else ErrorIn(x.image) == 0
  {
    var x := Exchange(flag, s, timeout, frame, image);
    ExchangeCodes(flag, s, timeout, frame, image);
    SignedZero(ResultIn(x.image));
    SignedZero(ErrorIn(x.image));
  }

  // ---------------------------------------------------------------- every reply

  /**
    What `ADSreadBytes` makes of any buffer, from the words at their places in the
    packet: the command at 22, the error at 30, the result at 38, the length at 42
    and the data from 46 on.
   */
  lemma ReadReturns(m: seq<byte>, rc: int, length: u32, hasBuffer: bool)
    requires |m| == 8192 && rc > 0
    ensures var o, n := DecodeRead(rc, 0, m, length, hasBuffer), Get32(m, 42);
      if Get16(m, 22) != 2 then o == ReadOutcome(ToInt32(Get32(m, 30)), rc, None, NoCopy)
      else if hasBuffer && n > length then o == ReadOutcome(0x705, ToInt32(n), None, NoCopy)
      else
        && o.ret == ToInt32(Get32(m, 38)) && o.nRead == Some(n) && o.answLen == ToInt32(n)
        && (hasBuffer && 46 + n <= 8192 ==> o.copied == Copy(m[46..46 + n]))
        && (hasBuffer && 46 + n > 8192 ==> o.copied == PastEnd(n))
        && (!hasBuffer ==> o.copied == NoCopy)
  {
  }

  /** The same for `ADSreadWriteBytes`. */
  lemma ReadWriteReturns(m: seq<byte>, rc: int, length: u32)
    requires |m| == 8192 && rc > 0
    ensures var o, n := DecodeReadWrite(rc, 0, m, length), Get32(m, 42);
      if Get16(m, 22) != 9 then o == ReadOutcome(ToInt32(Get32(m, 30)), rc, None, NoCopy)
      else if n > length then o == ReadOutcome(0x705, rc, None, NoCopy)
      else
        && o.ret == ToInt32(Get32(m, 38)) && o.nRead == Some(n) && o.answLen == rc
        && (46 + n <= 8192 ==> o.copied == Copy(m[46..46 + n]))
        && (46 + n > 8192 ==> o.copied == PastEnd(n))
  {
  }

  /** The same for `ADSreadState` and `ADSreadDeviceInfo`. */
  lemma StateReturns(m: seq<byte>, rc: int)
    requires |m| == 8192 && rc > 0
    ensures DecodeState(rc, 0, m)
         == (if Get16(m, 22) != 4 then StateOutcome(ToInt32(Get32(m, 30)), None)
             else StateOutcome(ToInt32(Get32(m, 38)), Some((Get16(m, 42), Get16(m, 44)))))
    ensures DecodeDevInfo(rc, 0, m)
         == (if Get16(m, 22) != 1 then InfoOutcome(ToInt32(Get32(m, 30)), None)
             else InfoOutcome(ToInt32(Get32(m, 38)), Some(DeviceInfo(m[42], m[43], Get16(m, 44), m[46..62]))))
  {
  }

  /** The same for `ADSwriteBytes` and `ADSwriteControl`, of a packet that fits the buffer or is too long for it. */
  lemma WriteReturns(m: seq<byte>, rc: int, error: int)
    requires |m| == 8192 && 0 < rc < 0x1_0000_0006
    ensures DecodeWrite(rc, error, m)
         == (if rc < 38 then 0 else if error == 0 then ToInt32(Get32(m, 38)) else ToInt32(Get32(m, 30)))
    ensures DecodeControl(rc, error, m) == (if error == 0 then ToInt32(Get32(m, 38)) else ToInt32(Get32(m, 30)))
  {
    SizeTest(rc);
  }

  /**
    What the four calls that look at the command return when their read fails: from
    the event behind the bytes that came, a timeout is 0x15, a peer that has shut
    down 0x50a, and a failing system call 0x1a; nothing is delivered.
   */
  lemma FailedReadReturns(s: Socket, timeout: int, frame: seq<byte>, image: seq<byte>, length: u32, hasBuffer: bool)
    requires |image| == MAXDATALEN && timeout >= 0
    requires var x := Exchange(0, s, timeout, frame, image); x.sent && x.rc <= 0
    ensures var x, n := Exchange(0, s, timeout, frame, image), Read(s.input, timeout, image).taken;
      && n <= |s.input|
      && var ret := if n == |s.input| then 0x50a
                    else if Late(s.input, BudgetOf(timeout), n) then 0x15
                    else if s.input[n].what.PeerShutdown? then 0x50a
                    else 0x1a;
      && DecodeRead(x.rc, x.error, x.image, length, hasBuffer) == ReadOutcome(ret, x.rc, None, NoCopy)
      && DecodeReadWrite(x.rc, x.error, x.image, length) == ReadOutcome(ret, x.rc, None, NoCopy)
      && DecodeState(x.rc, x.error, x.image) == StateOutcome(ret, None)
      && DecodeDevInfo(x.rc, x.error, x.image) == InfoOutcome(ret, None)
  {
    WhyReadFails(s.input, timeout, image);
  }

  // ---------------------------------------------------------------- inputs that show it

  /** On a fresh connection whose peer shuts down without a reply, a write and a control call report success. */
  lemma FreshWriteSucceeds(frame: seq<byte>, sent: seq<byte>)
    ensures var x := Exchange(0, Socket([], [], sent), 0, frame, Zeros(MAXDATALEN));
      && x.sent && x.rc == -2
      && DecodeWrite(x.rc, x.error, x.image) == 0
      && DecodeControl(x.rc, x.error, x.image) == 0
      && DecodeRead(x.rc, x.error, x.image, 0, false).ret == 0x50a
  {
    NothingComes(0, Zeros(MAXDATALEN));
    SizeTest(-2);
  }

  /** Any packet of more than 8192 bytes makes a read return 0 without data. */
  lemma OversizedSucceeds(f: seq<byte>, frame: seq<byte>, image: seq<byte>, length: u32)
    requires IsFrame(f) && |f| > MAXDATALEN && |image| == MAXDATALEN
    ensures var x := Exchange(0, Socket(Arriving(f), [], []), 0, frame, image);
      x.sent && DecodeRead(x.rc, x.error, x.image, length, true) == ReadOutcome(0, |f|, None, NoCopy)
  {
    ReadArriving(f, 0, image);
  }

  /** Such a packet: 9000 bytes, all of them 0 but the length. */
  lemma OversizedPacket() returns (f: seq<byte>)
    ensures IsFrame(f) && |f| == 9000
  {
    f := Le16(0) + Le32(8994) + Zeros(8994);
    assert f[2..6] == Le32(8994);
    Le32Get32(f, 2, 8994);
  }
}
