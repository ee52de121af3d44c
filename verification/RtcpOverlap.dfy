/** Report packets shorter than the fields they claim. The parser measures the fields
    against the rest of the datagram and converts them in place, so they may lie in the
    packets that follow. */
module RtcpOverlap {
  import opened Modular
  import opened Rtcp
  import opened RtcpParse
  import RtcpRoundTrip

  /** The octets of one packet: version 2, as many as its length field says. */
  ghost predicate IsPacket(pk: seq<u8>) { 4 <= |pk| == Announced(pk) && pk[0] / 64 == 2 }

  /** Whatever session reads the packet and whatever follows it in whatever datagram:
      the verdict and what the session learns are the same, and the octets that follow
      stay as received. */
  ghost predicate StandsAlone(pk: seq<u8>)
    requires IsPacket(pk)
  {
    forall p: Peer, now: int, t1: seq<u8>, n1: nat, t2: seq<u8>, n2: nat ::
      n1 + 4 <= |t1| && n2 + 4 <= |t2| ==> SameOutcome(p, pk, now, t1, n1, t2, n2)
  }

  ghost predicate SameOutcome(p: Peer, pk: seq<u8>, now: int, t1: seq<u8>, n1: nat, t2: seq<u8>, n2: nat)
    requires 4 <= |pk| && n1 + 4 <= |t1| && n2 + 4 <= |t2|
  {
    var r1, r2 := ParseOne(p, pk + t1, |pk| + n1, now), ParseOne(p, pk + t2, |pk| + n2, now);
    r1.peer == r2.peer && r1.ok == r2.ok && r1.mem[|pk|..] == t1
  }

  // ----- a packet that holds its fields -----

  lemma SwapPrefix(pk: seq<u8>, t: seq<u8>, at: nat, n: nat)
    requires 2 <= n <= 4 && at + n <= |pk|
    ensures Swap(pk + t, at, n) == Swap(pk, at, n) + t
  {
    assert (pk + t)[at + n..] == pk[at + n..] + t;
  }

  lemma {:induction false} SwapWordsPrefix(pk: seq<u8>, t: seq<u8>, at: nat, n: nat)
    requires at + 4 * n <= |pk|
    ensures SwapWords(pk + t, at, n) == SwapWords(pk, at, n) + t
  {
    if n > 0 {
      var k, word := n - 1, at + 4 * (n - 1);
      SwapWordsPrefix(pk, t, at, k);
      WordsStep(pk, at, k, n, word);
      WordsStep(pk + t, at, k, n, word);
      SwapPrefix(SwapWords(pk, at, k), t, word, 4);
    }
  }

  lemma SwapBlockPrefix(mine: bool, pk: seq<u8>, t: seq<u8>, at: nat)
    requires at + 24 <= |pk|
    ensures SwapBlock(mine, pk + t, at) == SwapBlock(mine, pk, at) + t
  {
    SwapPrefix(pk, t, at, 4);
    if mine {
      var b := Swap(pk, at, 4);
      SwapPrefix(b, t, at + 5, 3);
      SwapWordsPrefix(Swap(b, at + 5, 3), t, at + 8, 4);
    }
  }

  lemma SameReport(pk: seq<u8>, t: seq<u8>, at: nat)
    requires at + 24 <= |pk|
    ensures ReportBlockAt(pk + t, at) == ReportBlockAt(pk, at) && Get32(pk + t, at) == Get32(pk, at)
  {
  }

  lemma ReportPrefix(p: Peer, pk: seq<u8>, t: seq<u8>, at: nat, ssrc: u32)
    requires at + 24 <= |pk|
    ensures ParseReport(p, pk + t, at) == ParseReport(p, pk, at)
    ensures SwapBlock(Get32(pk + t, at) == ssrc, pk + t, at) == SwapBlock(Get32(pk, at) == ssrc, pk, at) + t
  {
    SameReport(pk, t, at);
    SwapBlockPrefix(Get32(pk, at) == ssrc, pk, t, at);
  }

  lemma {:induction false} ReportsPrefix(p: Peer, pk: seq<u8>, t: seq<u8>, at: nat, n: nat)
    requires at + 24 * n <= |pk|
    ensures ParseReports(p, pk + t, at, n) == ParseReports(p, pk, at, n)
    ensures SwapReports(p.sendSsrc, pk + t, at, n) == SwapReports(p.sendSsrc, pk, at, n) + t
  {
    if n > 0 {
      var k, block := n - 1, at + 24 * (n - 1);
      ReportsPrefix(p, pk, t, at, k);
      ReportsStep(p, pk, at, k, n, block);
      ReportsStep(p, pk + t, at, k, n, block);
      ReportPrefix(ParseReports(p, pk, at, k), SwapReports(p.sendSsrc, pk, at, k), t, block, p.sendSsrc);
    }
  }

  lemma {:induction false} StrndupPrefix(s: seq<u8>, t: seq<u8>, n: nat)
    requires n <= |s|
    ensures Strndup(s + t, n) == Strndup(s, n)
  {
    if n > 0 {
      StrndupPrefix(s[1..], t, n - 1);
      assert (s + t)[1..] == s[1..] + t;
    }
  }

  lemma ByePrefix(p: Peer, pk: seq<u8>, t: seq<u8>)
    requires 4 <= |pk|
    ensures ParseBye(p, pk + t, |pk|) == ParseBye(p, pk, |pk|)
  {
    var rc := Rc(pk);
    if 4 + 4 * rc <= |pk| {
      assert forall i :: 0 <= i < rc ==> Get32(pk + t, 4 + 4 * i) == Get32(pk, 4 + 4 * i);
      var at := 4 + 4 * rc;
      var space := |pk| - at;
      if space > 1 && pk[at] <= space - 1 {
        assert (pk + t)[at + 1..] == pk[at + 1..] + t;
        StrndupPrefix(pk[at + 1..], t, pk[at]);
      }
    }
  }

  lemma SrPrefix(p: Peer, pk: seq<u8>, t: seq<u8>, msgsize: nat, now: int)
    requires |pk| >= 28 && 28 + 24 * Rc(pk) <= |pk| <= msgsize && Readable(pk + t, msgsize)
    ensures var b := SwapWords(pk, 8, 5);
            ParseSr(p, pk + t, msgsize, now)
            == if Get32(pk, 4) != p.recvSsrc then Parsed(p, pk + t, false)
               else Parsed(ParseReports(SrNoted(p, pk, now), b, 28, Rc(pk)),
                           SwapReports(p.sendSsrc, b, 28, Rc(pk)) + t, true)
  {
    SameHead(pk, t);
    SwapWordsPrefix(pk, t, 8, 5);
    ReportsPrefix(SrNoted(p, pk, now), SwapWords(pk, 8, 5), t, 28, Rc(pk));
  }

  lemma RrPrefix(p: Peer, pk: seq<u8>, t: seq<u8>, msgsize: nat)
    requires |pk| >= 8 && 8 + 24 * Rc(pk) <= |pk| <= msgsize && Readable(pk + t, msgsize)
    ensures var p1 := RtcpRoundTrip.Adopted(p, Get32(pk, 4));
            ParseRr(p, pk + t, msgsize)
            == if p.recvSsrc != 0 && Get32(pk, 4) != p.recvSsrc then Parsed(p, pk + t, false)
               else Parsed(ParseReports(p1, pk, 8, Rc(pk)), SwapReports(p.sendSsrc, pk, 8, Rc(pk)) + t, true)
  {
    SameSource(pk, t);
    ReportsPrefix(RtcpRoundTrip.Adopted(p, Get32(pk, 4)), pk, t, 8, Rc(pk));
  }

  lemma SameSource(pk: seq<u8>, t: seq<u8>)
    requires |pk| >= 8
    ensures Get32(pk + t, 4) == Get32(pk, 4) && Rc(pk + t) == Rc(pk)
  {
  }

  lemma SameHead(pk: seq<u8>, t: seq<u8>)
    requires |pk| >= 16
    ensures Get32(pk + t, 4) == Get32(pk, 4) && Get32(pk + t, 8) == Get32(pk, 8) && Get32(pk + t, 12) == Get32(pk, 12)
    ensures Rc(pk + t) == Rc(pk)
  {
  }

  /** What a packet that holds its fields does, from its own octets alone. */
  function Alone(p: Peer, pk: seq<u8>, now: int): Parsed
    requires IsPacket(pk) && Extent(pk) <= |pk|
  {
    var b := Swap(pk, 2, 2);
    if pk[1] == SR then
      if Get32(b, 4) != p.recvSsrc then Parsed(p, b, false)
      else
        var b1 := SwapWords(b, 8, 5);
        Parsed(ParseReports(SrNoted(p, b, now), b1, 28, Rc(pk)), SwapReports(p.sendSsrc, b1, 28, Rc(pk)), true)
    else if pk[1] == RR then
      if p.recvSsrc != 0 && Get32(b, 4) != p.recvSsrc then Parsed(p, b, false)
      else
        var p1 := RtcpRoundTrip.Adopted(p, Get32(b, 4));
        Parsed(ParseReports(p1, b, 8, Rc(pk)), SwapReports(p.sendSsrc, b, 8, Rc(pk)), true)
    else if pk[1] == BYE then var (p1, ok) := ParseBye(p, b, |pk|); Parsed(p1, b, ok)
    else Parsed(p, b, pk[1] == SDES || pk[1] == APP)
  }

  lemma ParsedAlone(p: Peer, pk: seq<u8>, now: int, t: seq<u8>, msgsize: nat)
    requires IsPacket(pk) && Extent(pk) <= |pk| <= msgsize && Readable(pk + t, msgsize)
    ensures var r := Alone(p, pk, now); ParseOne(p, pk + t, msgsize, now) == Parsed(r.peer, r.mem + t, r.ok)
  {
    var b := Swap(pk, 2, 2);
    HeaderSwapped(pk);
    SwapPrefix(pk, t, 2, 2);
    HeaderSwapped(pk + t);
    if pk[1] == SR {
      SrPrefix(p, b, t, msgsize, now);
    } else if pk[1] == RR {
      RrPrefix(p, b, t, msgsize);
    } else if pk[1] == BYE {
      ByePrefix(p, b, t);
    }
  }

  // ----- a packet that does not -----

  function Bigger(pk: seq<u8>): seq<u8>
    requires |pk| >= 4
  {
    Zeros(Extent(pk) + 4)
  }

  /** Some session takes the packet with enough octets behind it and rejects it without. */
  lemma DependsOnWhatFollows(pk: seq<u8>)
    requires IsPacket(pk) && Extent(pk) > |pk|
    ensures !StandsAlone(pk)
  {
    var t := Bigger(pk);
    var b := Swap(pk + t, 2, 2);
    HeaderSwapped(pk + t);
    var p := Peer(0, Get32(b, 4), false, 0, 0, 0, [], []);
    var n := Extent(pk) - |pk|;
    assert !ParseOne(p, pk + t, |pk| + 0, 0).ok;
    assert ParseOne(p, pk + t, |pk| + n, 0).ok;
    assert !SameOutcome(p, pk, 0, t, 0, t, n);
  }

  /** A packet stands alone exactly if the fields it claims end within its length. */
  lemma StandsAloneIff(pk: seq<u8>)
    requires IsPacket(pk)
    ensures StandsAlone(pk) <==> Extent(pk) <= Announced(pk)
  {
    if Extent(pk) <= |pk| {
      forall p: Peer, now: int, t1: seq<u8>, n1: nat, t2: seq<u8>, n2: nat | n1 + 4 <= |t1| && n2 + 4 <= |t2|
        ensures SameOutcome(p, pk, now, t1, n1, t2, n2)
      {
        ParsedAlone(p, pk, now, t1, |pk| + n1);
        ParsedAlone(p, pk, now, t2, |pk| + n2);
      }
    } else {
      DependsOnWhatFollows(pk);
    }
  }

  // ----- the walk -----

  /** The octets of each packet the walk takes, as it finds them. */
  function Taken(p: Peer, b: seq<u8>, msgsize: nat, now: int): seq<seq<u8>>
    requires Readable(b, msgsize)
    decreases msgsize
  {
    if msgsize < 4 then []
    else
      var r := ParseOne(p, b, msgsize, now);
      if r.ok then
        [b[..Announced(b)]] + Taken(r.peer, r.mem[Announced(b)..], msgsize - Announced(b), now)
      else []
  }

  ghost predicate ArePackets(taken: seq<seq<u8>>) { forall i :: 0 <= i < |taken| ==> IsPacket(taken[i]) }

  /** Each packet the walk takes holds its fields. */
  ghost predicate AllContained(taken: seq<seq<u8>>) {
    forall i :: 0 <= i < |taken| ==> IsPacket(taken[i]) && Extent(taken[i]) <= Announced(taken[i])
  }

  /** Each packet the walk takes stands alone. */
  ghost predicate AllAlone(taken: seq<seq<u8>>) {
    forall i :: 0 <= i < |taken| ==> IsPacket(taken[i]) && StandsAlone(taken[i])
  }

  /** A walk that finds every packet as it was received. */
  function WalkReceived(p: Peer, b: seq<u8>, msgsize: nat, now: int): Peer
    requires Readable(b, msgsize)
    decreases msgsize
  {
    if msgsize < 4 then p.(lastRecvTime := now)
    else
      var r := ParseOne(p, b, msgsize, now);
      if r.ok then WalkReceived(r.peer, b[Announced(b)..], msgsize - Announced(b), now) else r.peer
  }

  lemma TakenStep(p: Peer, b: seq<u8>, msgsize: nat, left: nat, now: int)
    requires 4 <= msgsize && Readable(b, msgsize) && ParseOne(p, b, msgsize, now).ok
    requires left == msgsize - Announced(b)
    ensures var r, size := ParseOne(p, b, msgsize, now), Announced(b);
            Taken(p, b, msgsize, now) == [b[..size]] + Taken(r.peer, r.mem[size..], left, now)
  {
  }

  lemma {:induction false} TakenArePackets(p: Peer, b: seq<u8>, msgsize: nat, now: int)
    requires Readable(b, msgsize)
    ensures ArePackets(Taken(p, b, msgsize, now))
    decreases msgsize
  {
    if msgsize >= 4 {
      var r, size := ParseOne(p, b, msgsize, now), Announced(b);
      if r.ok {
        var left := msgsize - size;
        TakenArePackets(r.peer, r.mem[size..], left, now);
        TakenStep(p, b, msgsize, left, now);
        assert IsPacket(b[..size]);
      }
    }
  }

  /** Every packet the walk takes stands alone exactly if the fields of each report end
      within its packet. */
  lemma AllAloneIff(p: Peer, b: seq<u8>, msgsize: nat, now: int)
    requires Readable(b, msgsize)
    ensures AllAlone(Taken(p, b, msgsize, now)) <==> AllContained(Taken(p, b, msgsize, now))
  {
    var taken := Taken(p, b, msgsize, now);
    TakenArePackets(p, b, msgsize, now);
    forall i | 0 <= i < |taken| && IsPacket(taken[i])
      ensures StandsAlone(taken[i]) <==> Extent(taken[i]) <= Announced(taken[i])
    {
      StandsAloneIff(taken[i]);
    }
  }

  lemma ContainedRest(first: seq<u8>, rest: seq<seq<u8>>)
    requires AllContained([first] + rest)
    ensures IsPacket(first) && Extent(first) <= Announced(first) && AllContained(rest)
  {
    var taken := [first] + rest;
    assert taken[0] == first;
    forall i | 0 <= i < |rest| ensures IsPacket(rest[i]) && Extent(rest[i]) <= Announced(rest[i]) {
      assert taken[i + 1] == rest[i];
    }
  }

  lemma FirstTaken(p: Peer, b: seq<u8>, msgsize: nat, left: nat, now: int)
    requires 4 <= msgsize && Readable(b, msgsize) && ParseOne(p, b, msgsize, now).ok
    requires left == msgsize - Announced(b) && AllContained(Taken(p, b, msgsize, now))
    ensures var r, size := ParseOne(p, b, msgsize, now), Announced(b);
            Extent(b) <= size && AllContained(Taken(r.peer, r.mem[size..], left, now))
  {
    var r, size := ParseOne(p, b, msgsize, now), Announced(b);
    TakenStep(p, b, msgsize, left, now);
    ContainedRest(b[..size], Taken(r.peer, r.mem[size..], left, now));
  }

  lemma ReceivedStep(p: Peer, b: seq<u8>, msgsize: nat, left: nat, now: int)
    requires 4 <= msgsize && Readable(b, msgsize) && ParseOne(p, b, msgsize, now).ok
    requires left == msgsize - Announced(b)
    ensures WalkReceived(p, b, msgsize, now)
            == WalkReceived(ParseOne(p, b, msgsize, now).peer, b[Announced(b)..], left, now)
  {
  }

  /** In that case the session learns what the datagram as received says. */
  lemma {:induction false} WalkAsReceived(p: Peer, b: seq<u8>, msgsize: nat, now: int)
    requires Readable(b, msgsize) && AllContained(Taken(p, b, msgsize, now))
    ensures WalkFrom(p, b, msgsize, now).0 == WalkReceived(p, b, msgsize, now)
    decreases msgsize
  {
    if msgsize >= 4 {
      var r, size := ParseOne(p, b, msgsize, now), Announced(b);
      WalkStep([], p, b, msgsize, if r.ok then msgsize - size else 0, now);
      if r.ok {
        var left := msgsize - size;
        FirstTaken(p, b, msgsize, left, now);
        PacketFrame(p, b, msgsize, now, size);
        ReceivedStep(p, b, msgsize, left, now);
        WalkAsReceived(r.peer, r.mem[size..], left, now);
      }
    }
  }

  // ----- inputs on which it goes wrong -----

  /** A sender report of 28 octets that claims a block: the block is what follows. */
  function ShortSr(ssrc: u32, si: SenderInfo): seq<u8> {
    Concat([Header(SR, 1, 28), U32(ssrc)] + SenderInfoWords(si))
  }

  lemma ShortSrParsed(p: Peer, ssrc: u32, si: SenderInfo, t: seq<u8>, msgsize: nat, now: int)
    requires p.recvSsrc == ssrc && 52 <= msgsize && msgsize + 4 <= 28 + |t|
    ensures var b := ShortSr(ssrc, si) + t;
            var r := ParseOne(p, b, msgsize, now);
            r.ok && Announced(b) == 28 < Extent(b) && b[28..] == t && r.mem[28] == t[3]
            && r.peer.sendSsrc == p.sendSsrc && r.peer.recvSsrc == ssrc && r.peer.handlers == p.handlers
  {
    var b := ShortSr(ssrc, si) + t;
    ShortSrHeader(ssrc, si, t);
    HeaderSwapped(b);
    var b1 := Swap(b, 2, 2);
    SameWord(b1, b, 4, 4);
    Behind(b1, b, 4, 28);
    assert ParseOne(p, b, msgsize, now) == ParseSr(p, b1, msgsize, now);
    OneBlockTaken(p, b1, msgsize, now);
    assert b1[28..][3] == t[3];
  }

  lemma OneBlockTaken(p: Peer, b: seq<u8>, msgsize: nat, now: int)
    requires 52 <= msgsize && Readable(b, msgsize) && Rc(b) == 1 && Get32(b, 4) == p.recvSsrc
    ensures var r := ParseSr(p, b, msgsize, now);
            && r.ok && r.mem[28] == b[28..][3]
            && r.peer.sendSsrc == p.sendSsrc && r.peer.recvSsrc == p.recvSsrc && r.peer.handlers == p.handlers
  {
    var b1 := SwapWords(b, 8, 5);
    SwapWordsFrame(b, 8, 5, 28);
    FirstBlockSwapped(p.sendSsrc, b1, 28);
    assert b1[28..][3] == b1[31];
  }

  lemma ShortSrHeader(ssrc: u32, si: SenderInfo, t: seq<u8>)
    ensures var b := ShortSr(ssrc, si) + t;
            && |b| == 28 + |t| && b[0] / 64 == 2 && Rc(b) == 1 && b[1] == SR && Announced(b) == 28
            && Get32(b, 4) == ssrc && b[28..] == t
  {
    var ws := [Header(SR, 1, 28), U32(ssrc)] + SenderInfoWords(si);
    var b := Concat(ws) + t;
    RtcpRoundTrip.WordsHead(ws, t);
    RtcpRoundTrip.HeaderRead(SR, 28, Concat(ws[1..]) + t);
    WordAt(ws, t, 1);
    RtcpRoundTrip.WordRead(b, 4, ssrc);
  }

  lemma FirstBlockSwapped(ssrc: u32, b: seq<u8>, at: nat)
    requires at + 24 <= |b|
    ensures SwapReports(ssrc, b, at, 1)[at] == b[at + 3]
  {
    assert SwapReports(ssrc, b, at, 0) == b;
    var b1 := Swap(b, at, 4);
    SwapAt(b, at, 4, at);
    var b2 := Swap(b1, at + 5, 3);
    SwapAt(b1, at + 5, 3, at);
    SwapWordsFrame(b2, at + 8, 4, at + 24);
    assert SwapWords(b2, at + 8, 4)[..at + 8][at] == b2[..at + 8][at];
  }

  /** A receiver report behind a short sender report is lost: its header was converted
      as a block of the sender report, and the walk stops at what it makes of it. As
      received it would have been read. */
  lemma OverlapLosesReport(p: Peer, ssrc: u32, si: SenderInfo, rb: ReportBlock, beyond: seq<u8>, now: int)
    requires p.recvSsrc == ssrc && |beyond| >= 4
    ensures var b := ShortSr(ssrc, si) + (RrBytes(ssrc, rb) + beyond);
            var q := ParseOne(p, b, 28 + RR_SIZE, now).peer;
            && !AllContained(Taken(p, b, 28 + RR_SIZE, now))
            && Walk(p, b, 28 + RR_SIZE, now).0 == q
            && WalkReceived(p, b, 28 + RR_SIZE, now) == RtcpRoundTrip.AfterReport(q, rb).(lastRecvTime := now)
  {
    var t := RrBytes(ssrc, rb) + beyond;
    var b, n := ShortSr(ssrc, si) + t, 28 + RR_SIZE;
    RrLength(ssrc, rb);
    RtcpRoundTrip.WordsHead(RrWords(ssrc, rb), beyond);
    assert t[3] == Header(RR, 1, RR_SIZE)[3] == 7;
    ShortSrParsed(p, ssrc, si, t, n, now);
    var r := ParseOne(p, b, n, now);
    WalkStep([], p, b, n, RR_SIZE, now);
    assert r.mem[28..][0] == 7;
    if AllContained(Taken(p, b, n, now)) { FirstTaken(p, b, n, RR_SIZE, now); }
    ReceivedStep(p, b, n, RR_SIZE, now);
    RrReceived(r.peer, ssrc, rb, beyond, now);
  }

  lemma RrReceived(p: Peer, ssrc: u32, rb: ReportBlock, beyond: seq<u8>, now: int)
    requires p.recvSsrc == ssrc && |beyond| >= 4
    ensures |RrBytes(ssrc, rb) + beyond| >= RR_SIZE + 4
    ensures WalkReceived(p, RrBytes(ssrc, rb) + beyond, RR_SIZE, now)
            == RtcpRoundTrip.AfterReport(p, rb).(lastRecvTime := now)
  {
    var b := RrBytes(ssrc, rb) + beyond;
    RrLength(ssrc, rb);
    RtcpRoundTrip.RrParsed(p, ssrc, rb, beyond, RR_SIZE, now);
    ReceivedStep(p, b, RR_SIZE, 0, now);
  }

  /** A packet that is rejected changes the session in one case only: a receiver report
      too short for the datagram, with no source known yet, whose source is adopted. */
  lemma RejectedChangesIff(p: Peer, b: seq<u8>, msgsize: nat, now: int)
    requires 4 <= msgsize && Readable(b, msgsize)
    ensures var r := ParseOne(p, b, msgsize, now);
            && (!r.ok && r.peer != p <==>
                  && Acceptable(b, msgsize) && b[1] == RR && msgsize < Extent(b)
                  && p.recvSsrc == 0 && Get32(b, 4) != 0)
            && (!r.ok && r.peer != p ==> r.peer == p.(recvSsrc := Get32(b, 4)))
  {
    HeaderSwapped(b);
    SameWord(Swap(b, 2, 2), b, 4, 4);
  }
}
