/** rtcp_parse (rtcpparse.c): the walk over a compound packet and what a session
    learns from it. The parser converts fields to host order in the receive buffer
    itself, on a little-endian host. */
module RtcpParse {
  import opened Wrappers
  import opened Modular
  import opened Rtcp

  /** What the parser reads and writes of a session. reports are the blocks about
      this session's own source, byes the reasons given to the goodbye handlers. */
  datatype Peer = Peer(
    sendSsrc: u32, recvSsrc: u32, handlers: bool, lastSrTs: u32, lastSrTime: int, lastRecvTime: int,
    reports: seq<ReportBlock>, byes: seq<Option<seq<u8>>>)

  /** The session after a packet, the memory from the packet on, and whether the walk
      goes on. */
  datatype Parsed = Parsed(peer: Peer, mem: seq<u8>, ok: bool)

  /** The memory from the cursor on. The parser looks at a source identifier before it
      checks the size, so up to four octets behind the datagram are read. */
  predicate Readable(b: seq<u8>, msgsize: int) { msgsize + 4 <= |b| }

  // ----- conversions in place -----

  /** Two, three or four octets in reverse order. */
  function Swap(b: seq<u8>, at: nat, n: nat): (r: seq<u8>)
    requires 2 <= n <= 4 && at + n <= |b|
    ensures |r| == |b|
  {
    var octets := if n == 2 then [b[at + 1], b[at]]
                  else if n == 3 then [b[at + 2], b[at + 1], b[at]]
                  else [b[at + 3], b[at + 2], b[at + 1], b[at]];
    b[..at] + octets + b[at + n..]
  }

  lemma SwapAt(b: seq<u8>, at: nat, n: nat, k: nat)
    requires 2 <= n <= 4 && at + n <= |b| && k < |b|
    ensures Swap(b, at, n)[k] == if at <= k < at + n then b[2 * at + n - 1 - k] else b[k]
  {
  }

  function WordPos(at: nat, i: nat): nat { at + 4 * i }

  function BlockPos(at: nat, i: nat): nat { at + 24 * i }

  /** ntohl of n words. */
  function SwapWords(b: seq<u8>, at: nat, n: nat): (r: seq<u8>)
    requires at + 4 * n <= |b|
    ensures |r| == |b|
  {
    if n == 0 then b else Swap(SwapWords(b, at, n - 1), WordPos(at, n - 1), 4)
  }

  /** The identifier of a block is converted always, the rest if the block is about
      this session: a 24-bit count and four words. */
  function SwapBlock(mine: bool, b: seq<u8>, at: nat): (r: seq<u8>)
    requires at + 24 <= |b|
    ensures |r| == |b|
  {
    if mine then SwapWords(Swap(Swap(b, at, 4), at + 5, 3), at + 8, 4) else Swap(b, at, 4)
  }

  // ----- one packet -----

  function ReportBlockAt(b: seq<u8>, at: nat): ReportBlock
    requires at + 24 <= |b|
  {
    ReportBlock(Get32(b, at), b[at + 4], Hton24(GetLe24(b, at + 5)), Get32(b, at + 8), Get32(b, at + 12),
                Get32(b, at + 16), Get32(b, at + 20))
  }

  /** report_block_parse */
  function ParseReport(p: Peer, b: seq<u8>, at: nat): Peer
    requires at + 24 <= |b|
  {
    if Get32(b, at) != p.sendSsrc then p else p.(reports := p.reports + [ReportBlockAt(b, at)])
  }

  /** The memory after n blocks were parsed for a session with this source. */
  function SwapReports(ssrc: u32, b: seq<u8>, at: nat, n: nat): (r: seq<u8>)
    requires at + 24 * n <= |b|
    ensures |r| == |b|
  {
    if n == 0 then b
    else
      var b1, last := SwapReports(ssrc, b, at, n - 1), BlockPos(at, n - 1);
      SwapBlock(Get32(b1, last) == ssrc, b1, last)
  }

  /** The session after the first n report blocks. */
  function ParseReports(p: Peer, b: seq<u8>, at: nat, n: nat): (r: Peer)
    requires at + 24 * n <= |b|
    ensures r == p.(reports := r.reports)
  {
    if n == 0 then p
    else ParseReport(ParseReports(p, b, at, n - 1), SwapReports(p.sendSsrc, b, at, n - 1), BlockPos(at, n - 1))
  }

  lemma SwapReportsStep(ssrc: u32, b: seq<u8>, at: nat, i: nat, j: nat, block: nat)
    requires j == i + 1 && block == at + 24 * i && at + 24 * j <= |b|
    ensures var b1 := SwapReports(ssrc, b, at, i);
            SwapReports(ssrc, b, at, j) == SwapBlock(Get32(b1, block) == ssrc, b1, block)
  {
    assert j - 1 == i && BlockPos(at, j - 1) == BlockPos(at, i) == block;
  }

  lemma ReportsStep(p: Peer, b: seq<u8>, at: nat, i: nat, j: nat, block: nat)
    requires j == i + 1 && block == at + 24 * i && at + 24 * j <= |b|
    ensures var p1, b1 := ParseReports(p, b, at, i), SwapReports(p.sendSsrc, b, at, i);
            && ParseReports(p, b, at, j) == ParseReport(p1, b1, block)
            && SwapReports(p.sendSsrc, b, at, j) == SwapBlock(Get32(b1, block) == p.sendSsrc, b1, block)
  {
    SwapReportsStep(p.sendSsrc, b, at, i, j, block);
    assert j - 1 == i && BlockPos(at, j - 1) == BlockPos(at, i) == block;
  }

  /** Middle 32 bits of the 64-bit NTP time: the shift drops the high half of msw. */
  function MiddleNtp(msw: u32, lsw: u32): u32 { msw % 0x1_0000 * 0x1_0000 + lsw / 0x1_0000 }

  /** The 5-bit count of the header. */
  function Rc(b: seq<u8>): nat
    requires b != []
  {
    b[0] % 32
  }

  /** What the sender information tells a session. */
  function SrNoted(p: Peer, b: seq<u8>, now: int): Peer
    requires |b| >= 16
  {
    p.(lastSrTs := MiddleNtp(Get32(b, 8), Get32(b, 12)), lastSrTime := now)
  }

  /** The sizes are compared with what is left of the datagram, not with the length of
      the packet. */
  function ParseSr(p: Peer, b: seq<u8>, msgsize: nat, now: int): (r: Parsed)
    requires 4 <= msgsize && Readable(b, msgsize)
    ensures |r.mem| == |b|
  {
    if Get32(b, 4) != p.recvSsrc then Parsed(p, b, false)
    else if msgsize < 28 + 24 * Rc(b) then Parsed(p, b, false)
    else
      var b1 := SwapWords(b, 8, 5);
      Parsed(ParseReports(SrNoted(p, b, now), b1, 28, Rc(b)), SwapReports(p.sendSsrc, b1, 28, Rc(b)), true)
  }

  /** An unset source identifier is adopted even from a packet found too short. */
  function ParseRr(p: Peer, b: seq<u8>, msgsize: nat): (r: Parsed)
    requires 4 <= msgsize && Readable(b, msgsize)
    ensures |r.mem| == |b|
  {
    if p.recvSsrc != 0 && Get32(b, 4) != p.recvSsrc then Parsed(p, b, false)
    else
      var p1 := if p.recvSsrc == 0 then p.(recvSsrc := Get32(b, 4)) else p;
      if msgsize < 8 + 24 * Rc(b) then Parsed(p1, b, false)
      else Parsed(ParseReports(p1, b, 8, Rc(b)), SwapReports(p.sendSsrc, b, 8, Rc(b)), true)
  }

  predicate SsrcAmong(b: seq<u8>, n: nat, ssrc: u32)
    requires 4 + 4 * n <= |b|
  {
    exists i :: 0 <= i < n && Get32(b, 4 + 4 * i) == ssrc
  }

  /** ortp_strndup: up to n characters, ending before a NUL. */
  function Strndup(s: seq<u8>, n: nat): seq<u8>
    requires n <= |s|
  {
    if n == 0 || s[0] == 0 then [] else [s[0]] + Strndup(s[1..], n - 1)
  }

  function ReasonAt(b: seq<u8>, at: nat, space: nat): Option<seq<u8>>
    requires at + space <= |b|
  {
    if space > 1 && b[at] <= space - 1 then Some(Strndup(b[at + 1..], b[at])) else None
  }

  function ParseBye(p: Peer, b: seq<u8>, size: nat): (Peer, bool)
    requires 4 <= size <= |b|
  {
    var rc := Rc(b);
    if size < 4 + 4 * rc then (p, false)
    else if SsrcAmong(b, rc, p.recvSsrc) && p.handlers
    then (p.(byes := p.byes + [ReasonAt(b, 4 + 4 * rc, size - 4 - 4 * rc)]), true)
    else (p, true)
  }

  /** Up to n characters, and all of them unless a NUL comes first. */
  lemma {:induction false} StrndupMeans(s: seq<u8>, n: nat)
    requires n <= |s|
    ensures var r := Strndup(s, n);
            && |r| <= n && r == s[..|r|] && 0 !in r && (|r| == n || s[|r|] == 0)
  {
    if n > 0 && s[0] != 0 {
      StrndupMeans(s[1..], n - 1);
      var r := Strndup(s[1..], n - 1);
      assert s[..|r| + 1] == [s[0]] + s[1..][..|r|];
    }
  }

  /** The reason is given if its length octet and its text fit into the packet. */
  lemma ReasonIff(b: seq<u8>, at: nat, space: nat, size: nat)
    requires at + space == size <= |b|
    ensures var bye := ReasonAt(b, at, space);
            && (bye.Some? <==> at + 1 < size && at + 1 + b[at] <= size)
            && (bye.Some? ==>
                  var n := |bye.value|;
                  && n <= b[at] && bye.value == b[at + 1..at + 1 + n] && 0 !in bye.value
                  && (n == b[at] || b[at + 1 + n] == 0))
  {
    if space > 1 && b[at] <= space - 1 {
      StrndupMeans(b[at + 1..], b[at]);
      var n := |Strndup(b[at + 1..], b[at])|;
      assert b[at + 1..][..n] == b[at + 1..at + 1 + n];
    }
  }

  /** A goodbye fails only if its identifiers do not fit in it. It changes a session
      exactly if they do fit, one of them is the session's source, and there are
      handlers; then one goodbye is added, with the reason behind the identifiers. */
  lemma ByeIff(p: Peer, b: seq<u8>, size: nat)
    requires 4 <= size <= |b|
    ensures var (p1, ok) := ParseBye(p, b, size);
            var at := 4 + 4 * (b[0] % 32);
            && (ok <==> at <= size)
            && (p1 != p <==>
                  at <= size && p.handlers && exists i :: 4 <= i < at && i % 4 == 0 && Get32(b, i) == p.recvSsrc)
            && (p1 != p ==> p1 == p.(byes := p.byes + [ReasonAt(b, at, size - at)]))
  {
    var rc := Rc(b);
    var at := 4 + 4 * rc;
    if at <= size { AmongOffsets(b, rc, at, p.recvSsrc); }
  }

  lemma AmongOffsets(b: seq<u8>, n: nat, at: nat, ssrc: u32)
    requires at == 4 + 4 * n <= |b|
    ensures SsrcAmong(b, n, ssrc) <==> exists i :: 4 <= i < at && i % 4 == 0 && Get32(b, i) == ssrc
  {
    if i :| 0 <= i < n && Get32(b, 4 + 4 * i) == ssrc { assert (4 + 4 * i) % 4 == 0; }
    if i :| 4 <= i < at && i % 4 == 0 && Get32(b, i) == ssrc { assert Get32(b, 4 + 4 * ((i - 4) / 4)) == ssrc; }
  }

  /** A header the walk accepts: version 2, and a length within what is left. */
  predicate Acceptable(b: seq<u8>, msgsize: nat)
    requires 4 <= msgsize && Readable(b, msgsize)
  {
    b[0] / 64 == 2 && Announced(b) <= msgsize
  }

  function ParseOne(p: Peer, b: seq<u8>, msgsize: nat, now: int): (r: Parsed)
    requires 4 <= msgsize && Readable(b, msgsize)
    ensures |r.mem| == |b|
    ensures r.ok ==> Acceptable(b, msgsize)
  {
    if b[0] / 64 != 2 then Parsed(p, b, false)
    else
      var b1 := Swap(b, 2, 2);
      if Announced(b) > msgsize then Parsed(p, b1, false)
      else if b[1] == SR then ParseSr(p, b1, msgsize, now)
      else if b[1] == RR then ParseRr(p, b1, msgsize)
      else if b[1] == SDES || b[1] == APP then Parsed(p, b1, true)
      else if b[1] == BYE then var (p1, ok) := ParseBye(p, b1, Announced(b)); Parsed(p1, b1, ok)
      else Parsed(p, b1, false)
  }

  /** The walk, and the memory it leaves. What is left falls by at least four octets
      each time. */
  function Walk(p: Peer, b: seq<u8>, msgsize: nat, now: int): (r: (Peer, seq<u8>))
    requires Readable(b, msgsize)
    ensures |r.1| == |b|
    decreases msgsize
  {
    if msgsize < 4 then (p.(lastRecvTime := now), b)
    else
      var r := ParseOne(p, b, msgsize, now);
      if r.ok then
        var size := Announced(b);
        var (p1, rest) := Walk(r.peer, r.mem[size..], msgsize - size, now);
        (p1, r.mem[..size] + rest)
      else (r.peer, r.mem)
  }

  function Parse(p: Peer, b: seq<u8>, msgsize: nat, now: int): (Peer, seq<u8>)
    requires Readable(b, msgsize)
  {
    if msgsize < 4 then (p, b) else Walk(p, b, msgsize, now)
  }

  // ----- what the conversions leave alone -----

  lemma SwapFrame(b: seq<u8>, at: nat, n: nat, end: nat)
    requires 2 <= n <= 4 && at + n <= end <= |b|
    ensures Swap(b, at, n)[..at] == b[..at] && Swap(b, at, n)[end..] == b[end..]
  {
  }

  lemma {:induction false} SwapWordsFrame(b: seq<u8>, at: nat, n: nat, end: nat)
    requires at + 4 * n <= end <= |b|
    ensures SwapWords(b, at, n)[..at] == b[..at] && SwapWords(b, at, n)[end..] == b[end..]
  {
    if n > 0 {
      var k, word := n - 1, WordPos(at, n - 1);
      SwapWordsFrame(b, at, k, end);
      WordsStep(b, at, k, n, word);
      var r := SwapWords(b, at, k);
      SwapFrame(r, word, 4, end);
      Shorter(r, Swap(r, word, 4), word, at);
    }
  }

  lemma Shorter(a: seq<u8>, b: seq<u8>, n: nat, m: nat)
    requires m <= n <= |a| && n <= |b| && a[..n] == b[..n]
    ensures a[..m] == b[..m]
  {
    assert a[..n][..m] == a[..m] && b[..n][..m] == b[..m];
  }

  lemma Behind(a: seq<u8>, b: seq<u8>, n: nat, m: nat)
    requires n <= m <= |a| == |b| && a[n..] == b[n..]
    ensures a[m..] == b[m..]
  {
    assert a[n..][m - n..] == a[m..] && b[n..][m - n..] == b[m..];
  }

  lemma SwapBlockFrame(mine: bool, b: seq<u8>, at: nat, end: nat)
    requires at + 24 <= end <= |b|
    ensures SwapBlock(mine, b, at)[..at] == b[..at] && SwapBlock(mine, b, at)[end..] == b[end..]
  {
    var b1 := Swap(b, at, 4);
    SwapFrame(b, at, 4, end);
    if mine {
      var b2 := Swap(b1, at + 5, 3);
      SwapFrame(b1, at + 5, 3, end);
      Shorter(b2, b1, at + 5, at);
      SwapWordsFrame(b2, at + 8, 4, end);
      Shorter(SwapWords(b2, at + 8, 4), b2, at + 8, at);
    }
  }

  lemma FrameChain(a: seq<u8>, b: seq<u8>, c: seq<u8>, at: nat, last: nat, end: nat)
    requires at <= last <= end <= |a| == |b| == |c|
    requires a[..last] == b[..last] && a[end..] == b[end..] && b[..at] == c[..at] && b[end..] == c[end..]
    ensures a[..at] == c[..at] && a[end..] == c[end..]
  {
    Shorter(a, b, last, at);
  }

  lemma {:induction false} ReportsFrame(ssrc: u32, b: seq<u8>, at: nat, n: nat, end: nat)
    requires at + 24 * n <= end <= |b|
    ensures SwapReports(ssrc, b, at, n)[..at] == b[..at] && SwapReports(ssrc, b, at, n)[end..] == b[end..]
  {
    if n > 0 {
      var k, last := n - 1, BlockPos(at, n - 1);
      var b1 := SwapReports(ssrc, b, at, k);
      ReportsFrame(ssrc, b, at, k, end);
      SwapReportsStep(ssrc, b, at, k, n, last);
      SwapBlockFrame(Get32(b1, last) == ssrc, b1, last, end);
      FrameChain(SwapReports(ssrc, b, at, n), b1, b, at, last, end);
    }
  }

  /** Where the fields of a report end; other packets are not converted behind the
      header. */
  function Extent(b: seq<u8>): nat
    requires |b| >= 4
  {
    if b[1] == SR then 28 + 24 * Rc(b) else if b[1] == RR then 8 + 24 * Rc(b) else 4
  }

  /** The header after its length was converted. */
  lemma HeaderSwapped(b: seq<u8>)
    requires |b| >= 4
    ensures var b1 := Swap(b, 2, 2); b1[0] == b[0] && b1[1] == b[1] && b1[4..] == b[4..]
  {
    SwapFrame(b, 2, 2, 4);
    assert b[..2][0] == b[0] && b[..2][1] == b[1];
    assert Swap(b, 2, 2)[..2][0] == Swap(b, 2, 2)[0] && Swap(b, 2, 2)[..2][1] == Swap(b, 2, 2)[1];
  }

  lemma SameWord(a: seq<u8>, b: seq<u8>, n: nat, at: nat)
    requires n <= at && at + 4 <= |a| == |b| && a[n..] == b[n..]
    ensures Get32(a, at) == Get32(b, at)
  {
    Behind(a, b, n, at);
    forall k | at <= k < at + 4 ensures a[k] == b[k] { assert a[at..][k - at] == b[at..][k - at]; }
  }

  lemma SameBlock(a: seq<u8>, b: seq<u8>, n: nat, at: nat)
    requires n <= at && at + 24 <= |a| == |b| && a[n..] == b[n..]
    ensures ReportBlockAt(a, at) == ReportBlockAt(b, at)
  {
    Behind(a, b, n, at);
    forall k | at <= k < at + 24 ensures a[k] == b[k] { assert a[at..][k - at] == b[at..][k - at]; }
  }

  /** A packet changes no octet behind its fields. */
  lemma PacketFrame(p: Peer, b: seq<u8>, msgsize: nat, now: int, end: nat)
    requires 4 <= msgsize && Readable(b, msgsize) && Extent(b) <= end <= |b|
    ensures ParseOne(p, b, msgsize, now).mem[end..] == b[end..]
  {
    var b1, r := Swap(b, 2, 2), ParseOne(p, b, msgsize, now);
    HeaderSwapped(b);
    Behind(b1, b, 4, end);
    if r.mem != b1 && r.mem != b {
      if b[1] == SR {
        SwapWordsFrame(b1, 8, 5, end);
        ReportsFrame(p.sendSsrc, SwapWords(b1, 8, 5), 28, Rc(b), end);
      } else {
        ReportsFrame(p.sendSsrc, b1, 8, Rc(b), end);
      }
    }
  }

  /** The walk, under a name for the proofs that follow it packet by packet. */
  function WalkFrom(p: Peer, b: seq<u8>, msgsize: nat, now: int): (Peer, seq<u8>)
    requires Readable(b, msgsize)
  {
    Walk(p, b, msgsize, now)
  }

  /** The walk goes on behind a packet that parses, with what is left. */
  lemma WalkStep(done: seq<u8>, p: Peer, b: seq<u8>, msgsize: nat, left: nat, now: int)
    requires 4 <= msgsize && Readable(b, msgsize)
    requires ParseOne(p, b, msgsize, now).ok ==> left == msgsize - Announced(b)
    ensures var r, w, size := ParseOne(p, b, msgsize, now), WalkFrom(p, b, msgsize, now), Announced(b);
            if r.ok then
              var w1 := WalkFrom(r.peer, r.mem[size..], left, now);
              w.0 == w1.0 && done + w.1 == done + r.mem[..size] + w1.1
            else w == (r.peer, r.mem)
  {
  }

  lemma Parts(b: seq<u8>, cursor: nat, size: nat)
    requires cursor + size <= |b|
    ensures b[cursor..][size..] == b[cursor + size..]
    ensures b[..cursor + size] == b[..cursor] + b[cursor..][..size]
    ensures b == b[..cursor] + b[cursor..]
  {
  }

  class RtpSession {
    var peer: Peer

    constructor (peer: Peer)
      ensures this.peer == peer
    {
      this.peer := peer;
    }

    /** report_block_parse */
    method ReportBlockParse(buf: array<u8>, cursor: nat, at: nat)
      requires cursor + at + 24 <= buf.Length
      modifies this, buf
      ensures peer == ParseReport(old(peer), old(buf[cursor..]), at)
      ensures buf[cursor..] == SwapBlock(Get32(old(buf[cursor..]), at) == old(peer).sendSsrc, old(buf[cursor..]), at)
      ensures buf[..cursor] == old(buf[..cursor])
    {
      var rb := ReportBlockAt(buf[cursor..], at);
      SwapInPlace(buf, cursor, at, 4);
      if rb.ssrc == peer.sendSsrc {
        SwapInPlace(buf, cursor, at + 5, 3);
        SwapWordsInPlace(buf, cursor, at + 8, 4);
        peer := peer.(reports := peer.reports + [rb]);
      }
    }

    method ReportBlocks(buf: array<u8>, cursor: nat, at: nat, n: nat)
      requires cursor + at + 24 * n <= buf.Length
      modifies this, buf
      ensures peer == ParseReports(old(peer), old(buf[cursor..]), at, n)
      ensures buf[cursor..] == SwapReports(old(peer).sendSsrc, old(buf[cursor..]), at, n)
      ensures buf[..cursor] == old(buf[..cursor])
    {
      ghost var p0, b0 := peer, buf[cursor..];
      var i := 0;
      while i < n
        invariant 0 <= i <= n && buf[..cursor] == old(buf[..cursor])
        invariant peer == ParseReports(p0, b0, at, i) && buf[cursor..] == SwapReports(p0.sendSsrc, b0, at, i)
      {
        i := NextBlock(buf, cursor, at, i, p0, b0);
      }
    }

    method NextBlock(buf: array<u8>, cursor: nat, at: nat, i: nat, ghost p0: Peer, ghost b0: seq<u8>) returns (j: nat)
      requires cursor + at + 24 * (i + 1) <= buf.Length == cursor + |b0|
      requires peer == ParseReports(p0, b0, at, i) && buf[cursor..] == SwapReports(p0.sendSsrc, b0, at, i)
      modifies this, buf
      ensures j == i + 1
      ensures peer == ParseReports(p0, b0, at, j) && buf[cursor..] == SwapReports(p0.sendSsrc, b0, at, j)
      ensures buf[..cursor] == old(buf[..cursor])
    {
      var block := at + 24 * i;
      ReportBlockParse(buf, cursor, block);
      j := i + 1;
      ReportsStep(p0, b0, at, i, j, block);
    }

    method SrParse(buf: array<u8>, cursor: nat, msgsize: nat, now: int) returns (ok: bool)
      requires 4 <= msgsize && cursor + msgsize + 4 <= buf.Length
      modifies this, buf
      ensures Parsed(peer, buf[cursor..], ok) == ParseSr(old(peer), old(buf[cursor..]), msgsize, now)
      ensures buf[..cursor] == old(buf[..cursor])
    {
      if Get32(buf[cursor..], 4) != peer.recvSsrc { return false; }
      var rc := Rc(buf[cursor..]);
      if msgsize < 28 + 24 * rc { return false; }
      peer := peer.(lastSrTs := MiddleNtp(Get32(buf[cursor..], 8), Get32(buf[cursor..], 12)), lastSrTime := now);
      SwapWordsInPlace(buf, cursor, 8, 5);
      ReportBlocks(buf, cursor, 28, rc);
      return true;
    }

    method RrParse(buf: array<u8>, cursor: nat, msgsize: nat) returns (ok: bool)
      requires 4 <= msgsize && cursor + msgsize + 4 <= buf.Length
      modifies this, buf
      ensures Parsed(peer, buf[cursor..], ok) == ParseRr(old(peer), old(buf[cursor..]), msgsize)
      ensures buf[..cursor] == old(buf[..cursor])
    {
      var ssrc := Get32(buf[cursor..], 4);
      if peer.recvSsrc == 0 {
        peer := peer.(recvSsrc := ssrc);
      } else if ssrc != peer.recvSsrc {
        return false;
      }
      var rc := Rc(buf[cursor..]);
      if msgsize < 8 + 24 * rc { return false; }
      ReportBlocks(buf, cursor, 8, rc);
      return true;
    }

    method ByeParse(buf: array<u8>, cursor: nat, size: nat) returns (ok: bool)
      requires 4 <= size && cursor + size <= buf.Length
      modifies this
      ensures (peer, ok) == ParseBye(old(peer), buf[cursor..], size)
    {
      ghost var b := buf[cursor..];
      var rc := Rc(buf[cursor..]);
      var space := size - 4 - 4 * rc;
      if space < 0 { return false; }
      var i, recvSsrcMatch := 0, false;
      while i < rc
        invariant 0 <= i <= rc && !recvSsrcMatch
        invariant forall j :: 0 <= j < i ==> Get32(b, 4 + 4 * j) != peer.recvSsrc
      {
        if Get32(buf[cursor..], 4 + 4 * i) == peer.recvSsrc {
          recvSsrcMatch := true;
          break;
        }
        i := i + 1;
      }
      if recvSsrcMatch && peer.handlers {
        peer := peer.(byes := peer.byes + [ReasonAt(buf[cursor..], 4 + 4 * rc, space)]);
      }
      return true;
    }

    /** One packet of the datagram; ok is false where the code discards the rest. */
    method PacketParse(buf: array<u8>, cursor: nat, msgsize: nat, now: int) returns (ok: bool, size: nat)
      requires 4 <= msgsize && cursor + msgsize + 4 <= buf.Length
      modifies this, buf
      ensures Parsed(peer, buf[cursor..], ok) == ParseOne(old(peer), old(buf[cursor..]), msgsize, now)
      ensures size == Announced(old(buf[cursor..])) && buf[..cursor] == old(buf[..cursor])
    {
      size := Announced(buf[cursor..]);
      if buf[cursor] / 64 != 2 { return false, size; }
      SwapInPlace(buf, cursor, 2, 2);
      if size > msgsize { return false, size; }
      var packetType := buf[cursor + 1];
      if packetType == SR { ok := SrParse(buf, cursor, msgsize, now); }
      else if packetType == RR { ok := RrParse(buf, cursor, msgsize); }
      else if packetType == SDES || packetType == APP { ok := true; }
      else if packetType == BYE { ok := ByeParse(buf, cursor, size); }
      else { ok := false; }
    }

    /** The packet parsed, and the buffer in two parts. */
    method PacketSplit(buf: array<u8>, cursor: nat, msgsize: nat, now: int) returns (ok: bool, next: nat, left: nat)
      requires 4 <= msgsize && cursor + msgsize + 4 <= buf.Length
      modifies this, buf
      ensures left < msgsize && next + left == cursor + msgsize
      ensures var b := old(buf[cursor..]);
              var r, size := ParseOne(old(peer), b, msgsize, now), Announced(b);
              && peer == r.peer && ok == r.ok
              && if ok then
                   && left == msgsize - size && buf[next..] == r.mem[size..]
                   && buf[..next] == old(buf[..cursor]) + r.mem[..size]
                 else buf[..] == old(buf[..cursor]) + r.mem
    {
      var size;
      ok, size := PacketParse(buf, cursor, msgsize, now);
      Parts(buf[..], cursor, if ok then size else 0);
      assert buf[..][cursor..] == buf[cursor..] && buf[..][..cursor] == buf[..cursor];
      next, left := cursor + msgsize, 0;
      if ok {
        next, left := cursor + size, msgsize - size;
      }
    }

    /** One turn of the loop: ok with the place of the next packet and the size of what is
        left, or the end of the walk. */
    method Turn(buf: array<u8>, cursor: nat, msgsize: nat, now: int) returns (ok: bool, next: nat, left: nat)
      requires 4 <= msgsize && cursor + msgsize + 4 <= buf.Length
      modifies this, buf
      ensures left < msgsize && next + left == cursor + msgsize
      ensures var w := WalkFrom(old(peer), old(buf[cursor..]), msgsize, now);
              if ok then
                var w1 := WalkFrom(peer, buf[next..], left, now);
                w.0 == w1.0 && old(buf[..cursor]) + w.1 == buf[..next] + w1.1
              else peer == w.0 && buf[..] == old(buf[..cursor]) + w.1
    {
      ghost var p, b, done := peer, buf[cursor..], buf[..cursor];
      ok, next, left := PacketSplit(buf, cursor, msgsize, now);
      WalkStep(done, p, b, msgsize, left, now);
    }

    /** rtcp_parse on the first n octets of the receive buffer. */
    method RtcpParse(buf: array<u8>, n: nat, now: int)
      requires n + 4 <= buf.Length
      modifies this, buf
      ensures (peer, buf[..]) == Parse(old(peer), old(buf[..]), n, now)
    {
      var cursor: nat, msgsize: nat := 0, n;
      if msgsize < 4 { return; }
      ghost var all := WalkFrom(peer, buf[..], n, now);
      assert buf[0..] == buf[..] && [] + all.1 == all.1;
      while msgsize >= 4
        invariant cursor + msgsize == n && all.0 == WalkFrom(peer, buf[cursor..], msgsize, now).0
        invariant all.1 == buf[..cursor] + WalkFrom(peer, buf[cursor..], msgsize, now).1
        decreases msgsize
      {
        var ok, next, left := Turn(buf, cursor, msgsize, now);
        if !ok { return; }
        cursor, msgsize := next, left;
      }
      peer := peer.(lastRecvTime := now);
      Parts(buf[..], cursor, 0);
    }
  }

  method SwapInPlace(buf: array<u8>, cursor: nat, at: nat, n: nat)
    requires 2 <= n <= 4 && cursor + at + n <= buf.Length
    modifies buf
    ensures buf[cursor..] == Swap(old(buf[cursor..]), at, n)
    ensures buf[..cursor] == old(buf[..cursor])
  {
    var i := cursor + at;
    buf[i], buf[i + n - 1] := buf[i + n - 1], buf[i];
    if n == 4 { buf[i + 1], buf[i + 2] := buf[i + 2], buf[i + 1]; }
    ghost var b, r := old(buf[cursor..]), buf[cursor..];
    forall k | 0 <= k < |b| ensures r[k] == Swap(b, at, n)[k] { SwapAt(b, at, n, k); }
  }

  method SwapWordsInPlace(buf: array<u8>, cursor: nat, at: nat, n: nat)
    requires cursor + at + 4 * n <= buf.Length
    modifies buf
    ensures buf[cursor..] == SwapWords(old(buf[cursor..]), at, n)
    ensures buf[..cursor] == old(buf[..cursor])
  {
    ghost var b0 := buf[cursor..];
    var i := 0;
    while i < n
      invariant 0 <= i <= n && buf[cursor..] == SwapWords(b0, at, i) && buf[..cursor] == old(buf[..cursor])
    {
      i := NextWord(buf, cursor, at, i, b0);
    }
  }

  method NextWord(buf: array<u8>, cursor: nat, at: nat, i: nat, ghost b0: seq<u8>) returns (j: nat)
    requires cursor + at + 4 * (i + 1) <= buf.Length == cursor + |b0|
    requires buf[cursor..] == SwapWords(b0, at, i)
    modifies buf
    ensures j == i + 1 && buf[cursor..] == SwapWords(b0, at, j) && buf[..cursor] == old(buf[..cursor])
  {
    var word := at + 4 * i;
    SwapInPlace(buf, cursor, word, 4);
    j := i + 1;
    WordsStep(b0, at, i, j, word);
  }

  lemma WordsStep(b: seq<u8>, at: nat, i: nat, j: nat, word: nat)
    requires j == i + 1 && word == at + 4 * i && at + 4 * j <= |b|
    ensures SwapWords(b, at, j) == Swap(SwapWords(b, at, i), word, 4)
  {
    assert j - 1 == i && WordPos(at, j - 1) == WordPos(at, i) == word;
  }
}
