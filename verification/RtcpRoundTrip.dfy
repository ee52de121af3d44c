/** What a peer learns from the compound packets this side builds. */
module RtcpRoundTrip {
  import opened Wrappers
  import opened Modular
  import opened Rtcp
  import opened RtcpParse

  lemma WordRead(b: seq<u8>, at: nat, n: u32)
    requires at + 4 <= |b| && b[at..at + 4] == U32(n)
    ensures Get32(b, at) == n
  {
    U32RoundTrip(n);
    var w := b[at..at + 4];
    assert w[0] == b[at] && w[1] == b[at + 1] && w[2] == b[at + 2] && w[3] == b[at + 3];
  }

  lemma LossRead(b: seq<u8>, at: nat, fraction: u8, cum: u32)
    requires at + 4 <= |b| && b[at..at + 4] == LossWord(fraction, cum)
    ensures b[at] == fraction && Hton24(GetLe24(b, at + 1)) == cum % 0x100_0000
  {
    Hton24Twice(cum);
    var w, v := b[at..at + 4], Hton24(cum);
    assert w[0] == b[at] && w[1] == b[at + 1] && w[2] == b[at + 2] && w[3] == b[at + 3];
    Le24RoundTrip(v);
  }

  lemma Le24RoundTrip(v: u32)
    requires v < 0x100_0000
    ensures GetLe24(Le24(v), 0) == v
  {
    AsOctets(v);
  }

  /** A report block as it arrives: the loss count cut to 24 bits. */
  function Wire(rb: ReportBlock): ReportBlock { rb.(cumLost := rb.cumLost % 0x100_0000) }

  /** Word i of a block of words within a packet. */
  lemma WordWithin(ws: seq<Word>, tail: seq<u8>, k: nat, r: seq<Word>, i: nat)
    requires k + |r| <= |ws| && ws[k..k + |r|] == r && i < |r|
    ensures var at := 4 * k + 4 * i;
            at + 4 <= |Concat(ws) + tail| && (Concat(ws) + tail)[at..at + 4] == r[i]
  {
    WordAt(ws, tail, k + i);
    assert ws[k + i] == ws[k..k + |r|][i];
  }

  lemma FieldRead(ws: seq<Word>, tail: seq<u8>, k: nat, r: seq<Word>, i: nat, n: u32)
    requires k + |r| <= |ws| && ws[k..k + |r|] == r && i < |r| && r[i] == U32(n)
    ensures 4 * k + 4 * i + 4 <= |Concat(ws) + tail| && Get32(Concat(ws) + tail, 4 * k + 4 * i) == n
  {
    WordWithin(ws, tail, k, r, i);
    WordRead(Concat(ws) + tail, 4 * k + 4 * i, n);
  }

  lemma BlockHead(ws: seq<Word>, tail: seq<u8>, k: nat, rb: ReportBlock)
    requires k + 6 <= |ws| && ws[k..k + 6] == ReportBlockWords(rb)
    ensures var b, at := Concat(ws) + tail, 4 * k;
            && |b| >= at + 8 && Get32(b, at) == rb.ssrc
            && b[at + 4] == rb.fractionLost && Hton24(GetLe24(b, at + 5)) == rb.cumLost % 0x100_0000
  {
    var r := ReportBlockWords(rb);
    FieldRead(ws, tail, k, r, 0, rb.ssrc);
    WordWithin(ws, tail, k, r, 1);
    LossRead(Concat(ws) + tail, 4 * k + 4, rb.fractionLost, rb.cumLost);
  }

  lemma BlockRead(ws: seq<Word>, tail: seq<u8>, k: nat, rb: ReportBlock)
    requires k + 6 <= |ws| && ws[k..k + 6] == ReportBlockWords(rb)
    ensures |Concat(ws) + tail| >= 4 * k + 24 && ReportBlockAt(Concat(ws) + tail, 4 * k) == Wire(rb)
  {
    var r := ReportBlockWords(rb);
    BlockHead(ws, tail, k, rb);
    FieldRead(ws, tail, k, r, 2, rb.extHighSeq);
    FieldRead(ws, tail, k, r, 3, rb.jitter);
    FieldRead(ws, tail, k, r, 4, rb.lsr);
    FieldRead(ws, tail, k, r, 5, rb.dlsr);
  }

  /** The timestamp kept is the middle of the 64-bit NTP time, as section 6.4.1 of
      RFC 3550 has it. */
  lemma MiddleOfNtp(msw: u32, lsw: u32)
    ensures MiddleNtp(msw, lsw) == (msw * M32 + lsw) / 0x1_0000 % M32
  {
    var q, r := msw / 0x1_0000, msw % 0x1_0000;
    var x := msw * 0x1_0000 + lsw / 0x1_0000;
    assert (msw * M32 + lsw) / 0x1_0000 == x;
    assert x == M32 * q + MiddleNtp(msw, lsw);
    Wrap32Unique(x, q, MiddleNtp(msw, lsw));
  }

  function AfterReport(p: Peer, rb: ReportBlock): Peer {
    if rb.ssrc == p.sendSsrc then p.(reports := p.reports + [Wire(rb)]) else p
  }

  function AfterSr(p: Peer, si: SenderInfo, rb: ReportBlock, now: int): Peer {
    AfterReport(p.(lastSrTs := MiddleNtp(si.ntpMsw, si.ntpLsw), lastSrTime := now), rb)
  }

  /** A peer adopts the source of a receiver report if it knows none yet. */
  function Adopted(p: Peer, ssrc: u32): Peer { if p.recvSsrc == 0 then p.(recvSsrc := ssrc) else p }

  lemma HeaderRead(packetType: u8, bytesLen: nat, rest: seq<u8>)
    requires 4 <= bytesLen <= 0x4_0000 && bytesLen % 4 == 0
    ensures var b := Header(packetType, 1, bytesLen) + rest;
            b[0] / 64 == 2 && Rc(b) == 1 && b[1] == packetType && Announced(b) == bytesLen
  {
    var h := Header(packetType, 1, bytesLen);
    assert (h + rest)[0] == h[0] && (h + rest)[1] == h[1] && (h + rest)[2] == h[2] && (h + rest)[3] == h[3];
  }

  lemma WordsHead(ws: seq<Word>, tail: seq<u8>)
    requires ws != []
    ensures Concat(ws) + tail == ws[0] + (Concat(ws[1..]) + tail)
  {
  }

  lemma SrParsed(p: Peer, ssrc: u32, si: SenderInfo, rb: ReportBlock, tail: seq<u8>, msgsize: nat, now: int)
    requires p.recvSsrc == ssrc && msgsize >= SR_SIZE && Readable(SrBytes(ssrc, si, rb) + tail, msgsize)
    ensures var b := SrBytes(ssrc, si, rb) + tail;
            Reads(p, b, msgsize, now, AfterSr(p, si, rb, now), tail) && Announced(b) == SR_SIZE
  {
    var ws := SrWords(ssrc, si, rb);
    var b := Concat(ws) + tail;
    WordsHead(ws, tail);
    HeaderRead(SR, SR_SIZE, Concat(ws[1..]) + tail);
    WordAt(ws, tail, 1);
    WordRead(b, 4, ssrc);
    WordAt(ws, tail, 2);
    WordRead(b, 8, si.ntpMsw);
    WordAt(ws, tail, 3);
    WordRead(b, 12, si.ntpLsw);
    assert ws[7..13] == ReportBlockWords(rb);
    BlockRead(ws, tail, 7, rb);
    HeaderSwapped(b);
    var b1 := Swap(b, 2, 2);
    SameWord(b1, b, 4, 4);
    SameWord(b1, b, 4, 8);
    SameWord(b1, b, 4, 12);
    SwapWordsFrame(b1, 8, 5, 28);
    Behind(b1, b, 4, 28);
    SameBlock(SwapWords(b1, 8, 5), b, 28, 28);
    OneReport(p.(lastSrTs := MiddleNtp(si.ntpMsw, si.ntpLsw), lastSrTime := now), SwapWords(b1, 8, 5), 28, rb);
    PacketFrame(p, b, msgsize, now, SR_SIZE);
  }

  /** The packet parses, the session becomes p1, and what follows stays as received. */
  ghost predicate Reads(p: Peer, b: seq<u8>, msgsize: nat, now: int, p1: Peer, tail: seq<u8>)
    requires 4 <= msgsize && Readable(b, msgsize)
  {
    var r := ParseOne(p, b, msgsize, now);
    r.ok && r.peer == p1 && Announced(b) <= |b| && r.mem[Announced(b)..] == tail
  }

  lemma OneReport(p: Peer, b: seq<u8>, at: nat, rb: ReportBlock)
    requires at + 24 <= |b| && ReportBlockAt(b, at) == Wire(rb)
    ensures ParseReports(p, b, at, 1) == AfterReport(p, rb)
  {
    assert ParseReports(p, b, at, 0) == p && SwapReports(p.sendSsrc, b, at, 0) == b;
  }

  lemma RrParsed(p: Peer, ssrc: u32, rb: ReportBlock, tail: seq<u8>, msgsize: nat, now: int)
    requires p.recvSsrc == ssrc || p.recvSsrc == 0
    requires msgsize >= RR_SIZE && Readable(RrBytes(ssrc, rb) + tail, msgsize)
    ensures var b := RrBytes(ssrc, rb) + tail;
            Reads(p, b, msgsize, now, AfterReport(Adopted(p, ssrc), rb), tail) && Announced(b) == RR_SIZE
  {
    var ws := RrWords(ssrc, rb);
    var b := Concat(ws) + tail;
    WordsHead(ws, tail);
    HeaderRead(RR, RR_SIZE, Concat(ws[1..]) + tail);
    WordAt(ws, tail, 1);
    WordRead(b, 4, ssrc);
    assert ws[2..8] == ReportBlockWords(rb);
    BlockRead(ws, tail, 2, rb);
    HeaderSwapped(b);
    var b1 := Swap(b, 2, 2);
    SameWord(b1, b, 4, 4);
    SameBlock(b1, b, 4, 8);
    OneReport(Adopted(p, ssrc), b1, 8, rb);
    PacketFrame(p, b, msgsize, now, RR_SIZE);
  }

  lemma SdesParsed(p: Peer, ssrc: u32, items: seq<SdesItem>, tail: seq<u8>, msgsize: nat, now: int)
    requires FitsOneBlock(ssrc, items) && msgsize >= |SdesBytes(ssrc, items)|
    requires Readable(SdesBytes(ssrc, items) + tail, msgsize)
    ensures var b := SdesBytes(ssrc, items) + tail;
            Reads(p, b, msgsize, now, p, tail) && Announced(b) == |SdesBytes(ssrc, items)|
  {
    var chunk := SdesChunk(ssrc, items);
    assert SdesBytes(ssrc, items) + tail == Header(SDES, 1, 4 + |chunk|) + (chunk + tail);
    HeaderRead(SDES, 4 + |chunk|, chunk + tail);
    HeaderSwapped(SdesBytes(ssrc, items) + tail);
    PacketFrame(p, SdesBytes(ssrc, items) + tail, msgsize, now, |SdesBytes(ssrc, items)|);
  }

  /** A C string: no NUL within. */
  predicate CString(s: seq<u8>) { forall i :: 0 <= i < |s| ==> s[i] != 0 }

  lemma {:induction false} StrndupAll(text: seq<u8>, rest: seq<u8>)
    requires CString(text)
    ensures Strndup(text + rest, |text|) == text
  {
    if text != [] {
      StrndupAll(text[1..], rest);
      assert (text + rest)[1..] == text[1..] + rest;
    }
  }

  /** What the peer's handlers are given: an empty reason arrives as none. */
  function Received(reason: Option<seq<u8>>): Option<seq<u8>> {
    if reason == Some([]) then None else if reason.Some? then Some(Cut(reason.value)) else None
  }

  function AfterBye(p: Peer, reason: Option<seq<u8>>): Peer {
    if p.handlers then p.(byes := p.byes + [Received(reason)]) else p
  }

  function ByeSize(reason: Option<seq<u8>>): nat {
    if reason.None? || reason == Some([]) then 8
    else var n := |Cut(reason.value)|; 8 + 1 + n + 3 - n % 4
  }

  /** What follows the header and the source identifier in a goodbye packet. */
  function ByeText(reason: Option<seq<u8>>): seq<u8> {
    if reason.None? then []
    else
      var text := Cut(reason.value);
      [|text|] + (text + Zeros(if |text| > 0 then 3 - |text| % 4 else 0))
  }

  lemma ByeSizes(reason: Option<seq<u8>>)
    ensures ByeSize(reason) % 4 == 0 && 8 <= ByeSize(reason) <= 0x4_0000
    ensures |ByeText(reason)| == ByeSize(reason) - 8 + if reason == Some([]) then 1 else 0
  {
  }

  lemma ByeShape(ssrc: u32, reason: Option<seq<u8>>, tail: seq<u8>)
    ensures 4 <= ByeSize(reason) <= 0x4_0000
    ensures ByeBytes(ssrc, reason) + tail == Header(BYE, 1, ByeSize(reason)) + (U32(ssrc) + (ByeText(reason) + tail))
    ensures |ByeBytes(ssrc, reason)| == 8 + |ByeText(reason)|
  {
    ByeSizes(reason);
    var w, text := U32(ssrc), ByeText(reason);
    if reason.None? {
      assert w + text == w;
    } else {
      var cut := Cut(reason.value);
      Regroup(w, [|cut|], cut, Zeros(if |cut| > 0 then 3 - |cut| % 4 else 0));
    }
    Reassociate(Header(BYE, 1, ByeSize(reason)), w, text, tail);
  }

  lemma Regroup(a: seq<u8>, b: seq<u8>, c: seq<u8>, d: seq<u8>)
    ensures a + b + c + d == a + (b + (c + d))
  {
  }

  lemma Reassociate(a: seq<u8>, b: seq<u8>, c: seq<u8>, d: seq<u8>)
    ensures a + (b + c) + d == a + (b + (c + d))
  {
  }

  /** The length octet, the text, and what is behind it. */
  lemma TextRead(front: seq<u8>, n: u8, text: seq<u8>, rest: seq<u8>)
    requires |front| == 8 && n == |text| && CString(text)
    ensures var b := front + ([n] + (text + rest));
            b[8] == n && |b[9..]| >= n && Strndup(b[9..], n) == text
  {
    var b := front + ([n] + (text + rest));
    assert b[9..] == text + rest;
    StrndupAll(text, rest);
  }

  lemma ReasonRead(reason: Option<seq<u8>>, front: seq<u8>, tail: seq<u8>)
    requires |front| == 8 && (reason.Some? ==> CString(reason.value))
    requires |ByeText(reason) + tail| >= ByeSize(reason) - 8
    ensures ReasonAt(front + (ByeText(reason) + tail), 8, ByeSize(reason) - 8) == Received(reason)
  {
    if reason.Some? && reason.value != [] {
      var text := Cut(reason.value);
      var zeros := Zeros(3 - |text| % 4);
      TextRead(front, |text|, text, zeros + tail);
      Reassociate([|text|], text, zeros, tail);
    }
  }

  /** Behind another header of four octets. */
  lemma OtherHead(h: seq<u8>, b: seq<u8>, w: seq<u8>, rest: seq<u8>)
    requires |h| == 4 <= |b| && b[4..] == (h + (w + rest))[4..]
    ensures b == (b[..4] + w) + rest
  {
    assert (h + (w + rest))[4..] == w + rest;
    assert b == b[..4] + b[4..];
  }

  lemma ByeTaken(p: Peer, b: seq<u8>, size: nat, reason: Option<seq<u8>>)
    requires 8 <= size <= |b| && Rc(b) == 1 && Get32(b, 4) == p.recvSsrc && ReasonAt(b, 8, size - 8) == Received(reason)
    ensures ParseBye(p, b, size) == (AfterBye(p, reason), true)
  {
    assert Get32(b, 4 + 4 * 0) == p.recvSsrc;
  }

  lemma ByeParsed(p: Peer, ssrc: u32, reason: Option<seq<u8>>, tail: seq<u8>, msgsize: nat, now: int)
    requires p.recvSsrc == ssrc && (reason.Some? ==> CString(reason.value))
    requires msgsize >= |ByeBytes(ssrc, reason)| && Readable(ByeBytes(ssrc, reason) + tail, msgsize)
    ensures |ByeBytes(ssrc, reason)| >= ByeSize(reason)
    ensures var b := ByeBytes(ssrc, reason) + tail;
            Reads(p, b, msgsize, now, AfterBye(p, reason), b[ByeSize(reason)..]) && Announced(b) == ByeSize(reason)
  {
    ByeShape(ssrc, reason, tail);
    ByeSizes(reason);
    var rest := ByeText(reason) + tail;
    var b := ByeBytes(ssrc, reason) + tail;
    var h := Header(BYE, 1, ByeSize(reason));
    HeaderRead(BYE, ByeSize(reason), U32(ssrc) + rest);
    assert b[4..8] == U32(ssrc);
    WordRead(b, 4, ssrc);
    HeaderSwapped(b);
    var b1 := Swap(b, 2, 2);
    SameWord(b1, b, 4, 4);
    OtherHead(h, b1, U32(ssrc), rest);
    ReasonRead(reason, b1[..4] + U32(ssrc), tail);
    ByeTaken(p, b1, ByeSize(reason), reason);
    PacketFrame(p, b, msgsize, now, ByeSize(reason));
  }

  // ----- compound packets -----

  /** One step of the walk over a packet that parses. */
  lemma WalkOver(p: Peer, packet: seq<u8>, tail: seq<u8>, msgsize: nat, left: nat, now: int, p1: Peer)
    requires |packet| >= 4 && Readable(tail, left) && Announced(packet + tail) == |packet|
    requires msgsize == |packet| + left && Reads(p, packet + tail, msgsize, now, p1, tail)
    ensures WalkFrom(p, packet + tail, msgsize, now).0 == WalkFrom(p1, tail, left, now).0
  {
  }

  lemma SrWalked(p: Peer, ssrc: u32, si: SenderInfo, rb: ReportBlock, tail: seq<u8>, n: nat, left: nat, now: int)
    requires p.recvSsrc == ssrc && n == SR_SIZE + left && Readable(tail, left)
    ensures WalkFrom(p, SrBytes(ssrc, si, rb) + tail, n, now).0 == WalkFrom(AfterSr(p, si, rb, now), tail, left, now).0
  {
    SrParsed(p, ssrc, si, rb, tail, n, now);
    WalkOver(p, SrBytes(ssrc, si, rb), tail, n, left, now, AfterSr(p, si, rb, now));
  }

  lemma RrWalked(p: Peer, ssrc: u32, rb: ReportBlock, tail: seq<u8>, n: nat, left: nat, now: int)
    requires (p.recvSsrc == ssrc || p.recvSsrc == 0) && n == RR_SIZE + left && Readable(tail, left)
    ensures WalkFrom(p, RrBytes(ssrc, rb) + tail, n, now).0
            == WalkFrom(AfterReport(Adopted(p, ssrc), rb), tail, left, now).0
  {
    RrParsed(p, ssrc, rb, tail, n, now);
    WalkOver(p, RrBytes(ssrc, rb), tail, n, left, now, AfterReport(Adopted(p, ssrc), rb));
  }

  lemma SdesWalked(p: Peer, ssrc: u32, items: seq<SdesItem>, tail: seq<u8>, n: nat, left: nat, now: int)
    requires FitsOneBlock(ssrc, items) && n == |SdesBytes(ssrc, items)| + left && Readable(tail, left)
    ensures WalkFrom(p, SdesBytes(ssrc, items) + tail, n, now).0 == WalkFrom(p, tail, left, now).0
  {
    SdesParsed(p, ssrc, items, tail, n, now);
    WalkOver(p, SdesBytes(ssrc, items), tail, n, left, now, p);
  }

  /** The end of a compound packet that closes with a goodbye. The stray octet of an
      empty reason is left over and ends the walk all the same. */
  lemma ByeWalked(p: Peer, ssrc: u32, reason: Option<seq<u8>>, beyond: seq<u8>, n: nat, now: int)
    requires p.recvSsrc == ssrc && (reason.Some? ==> CString(reason.value)) && |beyond| >= 4
    requires n == |ByeBytes(ssrc, reason)|
    ensures WalkFrom(p, ByeBytes(ssrc, reason) + beyond, n, now).0 == AfterBye(p, reason).(lastRecvTime := now)
  {
    ByeShape(ssrc, reason, beyond);
    ByeSizes(reason);
    ByeParsed(p, ssrc, reason, beyond, n, now);
    var b, left := ByeBytes(ssrc, reason) + beyond, n - ByeSize(reason);
    var r := ParseOne(p, b, n, now);
    WalkStep([], p, b, n, left, now);
    Ended(r.peer, r.mem[Announced(b)..], left, now);
  }

  lemma Walked(p: Peer, b: seq<u8>, n: nat, now: int)
    requires n >= 4 && Readable(b, n)
    ensures Parse(p, b, n, now) == WalkFrom(p, b, n, now)
  {
  }

  lemma Ended(p: Peer, beyond: seq<u8>, left: nat, now: int)
    requires left < 4 && Readable(beyond, left)
    ensures WalkFrom(p, beyond, left, now).0 == p.(lastRecvTime := now)
  {
  }

  /** rtp_session_rtcp_process for a sender: SR and SDES. */
  lemma SenderReport(p: Peer, ssrc: u32, si: SenderInfo, rb: ReportBlock, items: seq<SdesItem>,
                     beyond: seq<u8>, now: int)
    requires p.recvSsrc == ssrc && FitsOneBlock(ssrc, items) && |beyond| >= 4
    ensures var sdes := SdesBytes(ssrc, items);
            Parse(p, SrBytes(ssrc, si, rb) + (sdes + beyond), SR_SIZE + |sdes|, now).0
            == AfterSr(p, si, rb, now).(lastRecvTime := now)
  {
    var sdes := SdesBytes(ssrc, items);
    var p1, n := AfterSr(p, si, rb, now), SR_SIZE + |sdes|;
    Walked(p, SrBytes(ssrc, si, rb) + (sdes + beyond), n, now);
    SrWalked(p, ssrc, si, rb, sdes + beyond, n, |sdes|, now);
    SdesWalked(p1, ssrc, items, beyond, |sdes|, 0, now);
    Ended(p1, beyond, 0, now);
  }

  /** rtp_session_bye of a sender: SR, SDES and BYE. */
  lemma SenderBye(p: Peer, ssrc: u32, si: SenderInfo, rb: ReportBlock, items: seq<SdesItem>,
                  reason: Option<seq<u8>>, beyond: seq<u8>, now: int)
    requires p.recvSsrc == ssrc && FitsOneBlock(ssrc, items) && |beyond| >= 4
    requires reason.Some? ==> CString(reason.value)
    ensures var sdes, bye := SdesBytes(ssrc, items), ByeBytes(ssrc, reason);
            Parse(p, SrBytes(ssrc, si, rb) + (sdes + (bye + beyond)), SR_SIZE + |sdes| + |bye|, now).0
            == AfterBye(AfterSr(p, si, rb, now), reason).(lastRecvTime := now)
  {
    var sdes, bye := SdesBytes(ssrc, items), ByeBytes(ssrc, reason);
    var p1, n, left := AfterSr(p, si, rb, now), SR_SIZE + |sdes| + |bye|, |sdes| + |bye|;
    Walked(p, SrBytes(ssrc, si, rb) + (sdes + (bye + beyond)), n, now);
    SrWalked(p, ssrc, si, rb, sdes + (bye + beyond), n, left, now);
    SdesWalked(p1, ssrc, items, bye + beyond, left, |bye|, now);
    ByeWalked(p1, ssrc, reason, beyond, |bye|, now);
  }

  /** rtp_session_bye of a receiver: RR and BYE. */
  lemma ReceiverBye(p: Peer, ssrc: u32, rb: ReportBlock, reason: Option<seq<u8>>, beyond: seq<u8>, now: int)
    requires (p.recvSsrc == ssrc || p.recvSsrc == 0) && |beyond| >= 4
    requires reason.Some? ==> CString(reason.value)
    ensures var bye := ByeBytes(ssrc, reason);
            Parse(p, RrBytes(ssrc, rb) + (bye + beyond), RR_SIZE + |bye|, now).0
            == AfterBye(AfterReport(Adopted(p, ssrc), rb), reason).(lastRecvTime := now)
  {
    var bye := ByeBytes(ssrc, reason);
    var p1, n := AfterReport(Adopted(p, ssrc), rb), RR_SIZE + |bye|;
    Walked(p, RrBytes(ssrc, rb) + (bye + beyond), n, now);
    RrWalked(p, ssrc, rb, bye + beyond, n, |bye|, now);
    ByeWalked(p1, ssrc, reason, beyond, |bye|, now);
  }

  /** rtp_session_rtcp_process for a receiver: RR alone. */
  lemma ReceiverReport(p: Peer, ssrc: u32, rb: ReportBlock, beyond: seq<u8>, now: int)
    requires (p.recvSsrc == ssrc || p.recvSsrc == 0) && |beyond| >= 4
    ensures Parse(p, RrBytes(ssrc, rb) + beyond, RR_SIZE, now).0
            == AfterReport(Adopted(p, ssrc), rb).(lastRecvTime := now)
  {
    Walked(p, RrBytes(ssrc, rb) + beyond, RR_SIZE, now);
    RrWalked(p, ssrc, rb, beyond, RR_SIZE, 0, now);
    Ended(AfterReport(Adopted(p, ssrc), rb), beyond, 0, now);
  }
}
