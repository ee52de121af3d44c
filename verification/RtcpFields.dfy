/** What the parser makes of a report, in terms of the octets as received: its
    conversions in place do not get into each other's way. And what a source
    description chunk says to whoever reads it. */
module RtcpFields {
  import opened Wrappers
  import opened Modular
  import opened Rtcp
  import opened RtcpParse
  import opened RtcpRoundTrip

  // ----- report blocks -----

  /** Network order and the little-endian field with the macro name the same count. */
  lemma Loss24(b: seq<u8>, at: nat)
    requires at + 3 <= |b|
    ensures Hton24(GetLe24(b, at)) == Get24(b, at)
  {
    Octets(b[at], b[at + 1], b[at + 2], 0);
  }

  lemma SameOctets(a: seq<u8>, b: seq<u8>, from: nat)
    requires from <= |a| == |b| && a[from..] == b[from..]
    ensures forall k :: from <= k < |b| ==> a[k] == b[k]
  {
    forall k | from <= k < |b| ensures a[k] == b[k] { assert a[from..][k - from] == b[from..][k - from]; }
  }

  /** The first n blocks from an offset on that are about a source, in order. */
  function BlocksAbout(ssrc: u32, b: seq<u8>, at: nat, n: nat): seq<ReportBlock>
    requires at + 24 * n <= |b|
  {
    if n == 0 then []
    else
      var last := BlockPos(at, n - 1);
      BlocksAbout(ssrc, b, at, n - 1) + if Get32(b, last) == ssrc then [ReportBlockAt(b, last)] else []
  }

  lemma BlocksStep(ssrc: u32, b: seq<u8>, at: nat, i: nat, j: nat, block: nat)
    requires j == i + 1 && block == at + 24 * i && at + 24 * j <= |b|
    ensures BlocksAbout(ssrc, b, at, j)
            == BlocksAbout(ssrc, b, at, i) + if Get32(b, block) == ssrc then [ReportBlockAt(b, block)] else []
  {
    assert j - 1 == i && BlockPos(at, j - 1) == BlockPos(at, i) == block;
  }

  /** The fields of a block, big end first. */
  lemma BlockFields(b: seq<u8>, at: nat)
    requires at + 24 <= |b|
    ensures var rb := ReportBlockAt(b, at);
            && BlockOnWire(b, at, rb.ssrc, rb.fractionLost, rb.cumLost, rb.extHighSeq, rb.jitter, rb.lsr, rb.dlsr)
            && rb.cumLost < 0x100_0000
  {
    Loss24(b, at + 5);
  }

  lemma {:induction false} ReportsLearned(p: Peer, b: seq<u8>, at: nat, n: nat)
    requires at + 24 * n <= |b|
    ensures ParseReports(p, b, at, n) == p.(reports := p.reports + BlocksAbout(p.sendSsrc, b, at, n))
  {
    if n > 0 {
      var k, last := n - 1, BlockPos(at, n - 1);
      ReportsLearned(p, b, at, k);
      ReportsStep(p, b, at, k, n, last);
      BlocksStep(p.sendSsrc, b, at, k, n, last);
      var b1 := SwapReports(p.sendSsrc, b, at, k);
      ReportsFrame(p.sendSsrc, b, at, k, last);
      SameWord(b1, b, last, last);
      SameBlock(b1, b, last, last);
    } else {
      assert p.reports + [] == p.reports;
    }
  }

  /** A sender report is taken exactly if it is whole, from the known sender, and its blocks
      end within the datagram; the session then has the middle of its time, and the blocks
      about itself as received. Otherwise it learns nothing. */
  lemma SrTaken(p: Peer, b: seq<u8>, msgsize: nat, now: int)
    requires 4 <= msgsize && Readable(b, msgsize) && b[1] == SR
    ensures var r, rc := ParseOne(p, b, msgsize, now), Rc(b);
            && (r.ok <==> Acceptable(b, msgsize) && Get32(b, 4) == p.recvSsrc && 28 + 24 * rc <= msgsize)
            && r.peer == if r.ok then
                           p.(lastSrTs := MiddleNtp(Get32(b, 8), Get32(b, 12)), lastSrTime := now,
                              reports := p.reports + BlocksAbout(p.sendSsrc, b, 28, rc))
                         else p
  {
    var b1 := Swap(b, 2, 2);
    HeaderSwapped(b);
    SameWord(b1, b, 4, 4);
    if Acceptable(b, msgsize) && Get32(b, 4) == p.recvSsrc && 28 + 24 * Rc(b) <= msgsize {
      SameWord(b1, b, 4, 8);
      SameWord(b1, b, 4, 12);
      var b2 := SwapWords(b1, 8, 5);
      SwapWordsFrame(b1, 8, 5, 28);
      Behind(b1, b, 4, 28);
      ReportsLearned(SrNoted(p, b1, now), b2, 28, Rc(b));
      SameBlocks(p.sendSsrc, b2, b, 28, Rc(b));
    }
  }

  /** A receiver report the same way, from the known sender or, if none is known yet, from
      any, which is then adopted even if the report is too short. */
  lemma RrTaken(p: Peer, b: seq<u8>, msgsize: nat, now: int)
    requires 4 <= msgsize && Readable(b, msgsize) && b[1] == RR
    ensures var r, rc := ParseOne(p, b, msgsize, now), Rc(b);
            var heard := Acceptable(b, msgsize) && (p.recvSsrc == 0 || p.recvSsrc == Get32(b, 4));
            && (r.ok <==> heard && 8 + 24 * rc <= msgsize)
            && r.peer == if r.ok then
                           p.(recvSsrc := Get32(b, 4), reports := p.reports + BlocksAbout(p.sendSsrc, b, 8, rc))
                         else if heard then p.(recvSsrc := Get32(b, 4)) else p
  {
    var b1 := Swap(b, 2, 2);
    HeaderSwapped(b);
    SameWord(b1, b, 4, 4);
    if Acceptable(b, msgsize) && 8 + 24 * Rc(b) <= msgsize {
      ReportsLearned(p.(recvSsrc := Get32(b, 4)), b1, 8, Rc(b));
      Behind(b1, b, 4, 8);
      SameBlocks(p.sendSsrc, b1, b, 8, Rc(b));
    }
  }

  lemma {:induction false} SameBlocks(ssrc: u32, a: seq<u8>, b: seq<u8>, at: nat, n: nat)
    requires at + 24 * n <= |a| == |b| && a[at..] == b[at..]
    ensures BlocksAbout(ssrc, a, at, n) == BlocksAbout(ssrc, b, at, n)
  {
    if n > 0 {
      var k, last := n - 1, BlockPos(at, n - 1);
      SameBlocks(ssrc, a, b, at, k);
      BlocksStep(ssrc, a, at, k, n, last);
      BlocksStep(ssrc, b, at, k, n, last);
      SameWord(a, b, at, last);
      SameBlock(a, b, at, last);
    }
  }

  // ----- the memory afterwards -----

  /** A word as a little-endian host reads it. */
  function HostWord(b: seq<u8>, at: nat): u32
    requires at + 4 <= |b|
  {
    b[at] as int + b[at + 1] as int * 256 + b[at + 2] as int * 0x1_0000 + b[at + 3] as int * 0x100_0000
  }

  lemma SwapReads(b: seq<u8>, at: nat)
    requires at + 4 <= |b|
    ensures HostWord(Swap(b, at, 4), at) == Get32(b, at)
  {
  }

  lemma EarlierWord(b: seq<u8>, last: nat, word: nat)
    requires word + 4 <= last && last + 4 <= |b|
    ensures HostWord(Swap(b, last, 4), word) == HostWord(b, word)
  {
    SwapFrame(b, last, 4, last + 4);
    SameHostWord(Swap(b, last, 4), b, last, word);
  }

  lemma {:induction false} WordsRead(b: seq<u8>, at: nat, n: nat, i: nat, word: nat)
    requires at + 4 * n <= |b| && i < n && word == at + 4 * i
    ensures HostWord(SwapWords(b, at, n), word) == Get32(b, word)
  {
    var k, last := n - 1, WordPos(at, n - 1);
    var r := SwapWords(b, at, k);
    WordsStep(b, at, k, n, last);
    if i == k {
      SwapWordsFrame(b, at, k, last);
      SameWord(r, b, last, last);
      SwapReads(r, last);
    } else {
      WordsRead(b, at, k, i, word);
      EarlierWord(r, last, word);
    }
  }

  lemma SameHostWord(a: seq<u8>, b: seq<u8>, n: nat, at: nat)
    requires at + 4 <= n <= |a| == |b| && a[..n] == b[..n]
    ensures HostWord(a, at) == HostWord(b, at)
  {
    forall k | 0 <= k < n ensures a[k] == b[k] { assert a[..n][k] == b[..n][k]; }
  }

  /** A block about the session, read by its host after the conversion: every field has
      its value. Of any other block the identifier does, and the rest is as received. */
  ghost predicate Converted(mine: bool, b: seq<u8>, at: nat, r: seq<u8>)
    requires at + 24 <= |b| == |r|
  {
    && HostWord(r, at) == Get32(b, at) && r[at + 4] == b[at + 4]
    && (mine ==>
          && GetLe24(r, at + 5) == Get24(b, at + 5)
          && HostWord(r, at + 8) == Get32(b, at + 8) && HostWord(r, at + 12) == Get32(b, at + 12)
          && HostWord(r, at + 16) == Get32(b, at + 16) && HostWord(r, at + 20) == Get32(b, at + 20))
    && (!mine ==> r[at + 4..at + 24] == b[at + 4..at + 24])
  }

  lemma BlockConverted(mine: bool, b: seq<u8>, at: nat)
    requires at + 24 <= |b|
    ensures Converted(mine, b, at, SwapBlock(mine, b, at))
  {
    var b1 := Swap(b, at, 4);
    SwapReads(b, at);
    if mine {
      var b2, words := Swap(b1, at + 5, 3), at + 8;
      SwapFrame(b1, at + 5, 3, words);
      Behind(b1, b, at + 4, words);
      WordsRead(b2, words, 4, 0, words);
      WordsRead(b2, words, 4, 1, words + 4);
      WordsRead(b2, words, 4, 2, words + 8);
      WordsRead(b2, words, 4, 3, words + 12);
      SwapWordsFrame(b2, words, 4, words + 16);
      SameOctets(b2, b, words);
      var r := SwapWords(b2, words, 4);
      SameHostWord(r, b2, words, at);
      forall k | 0 <= k < words ensures r[k] == b2[k] { assert r[..words][k] == b2[..words][k]; }
    }
  }

  lemma ConvertedIn(mine: bool, b: seq<u8>, c: seq<u8>, at: nat, r: seq<u8>, t: seq<u8>)
    requires at + 24 <= |b| == |c| == |r| == |t| && Converted(mine, b, at, r)
    requires b[at..at + 24] == c[at..at + 24] && r[at..at + 24] == t[at..at + 24]
    ensures Converted(mine, c, at, t)
  {
    forall k | at <= k < at + 24 ensures b[k] == c[k] && r[k] == t[k] {
      assert b[at..at + 24][k - at] == c[at..at + 24][k - at] && r[at..at + 24][k - at] == t[at..at + 24][k - at];
    }
    assert r[at + 4..at + 24] == t[at + 4..at + 24] && b[at + 4..at + 24] == c[at + 4..at + 24];
  }

  lemma InsideFront(a: seq<u8>, b: seq<u8>, n: nat, at: nat, end: nat)
    requires at <= end <= n <= |a| == |b| && a[..n] == b[..n]
    ensures a[at..end] == b[at..end]
  {
    forall k | at <= k < end ensures a[k] == b[k] { assert a[..n][k] == b[..n][k]; }
  }

  lemma InsideBack(a: seq<u8>, b: seq<u8>, n: nat, at: nat, end: nat)
    requires n <= at <= end <= |a| == |b| && a[n..] == b[n..]
    ensures a[at..end] == b[at..end]
  {
    forall k | at <= k < end ensures a[k] == b[k] { assert a[n..][k - n] == b[n..][k - n]; }
  }

  lemma LastConverted(ssrc: u32, b: seq<u8>, at: nat, k: nat, n: nat, last: nat)
    requires n == k + 1 && last == at + 24 * k && last + 24 <= |b|
    ensures Converted(Get32(b, last) == ssrc, b, last, SwapReports(ssrc, b, at, n))
  {
    var b1, r, mine := SwapReports(ssrc, b, at, k), SwapReports(ssrc, b, at, n), Get32(b, last) == ssrc;
    SwapReportsStep(ssrc, b, at, k, n, last);
    ReportsFrame(ssrc, b, at, k, last);
    SameWord(b1, b, last, last);
    BlockConverted(mine, b1, last);
    InsideBack(b1, b, last, last, last + 24);
    ConvertedIn(mine, b1, b, last, r, r);
  }

  lemma EarlierKept(ssrc: u32, b: seq<u8>, at: nat, k: nat, n: nat, last: nat, block: nat)
    requires n == k + 1 && last == at + 24 * k && last + 24 <= |b| && block + 24 <= last
    requires Converted(Get32(b, block) == ssrc, b, block, SwapReports(ssrc, b, at, k))
    ensures Converted(Get32(b, block) == ssrc, b, block, SwapReports(ssrc, b, at, n))
  {
    var b1, r := SwapReports(ssrc, b, at, k), SwapReports(ssrc, b, at, n);
    SwapReportsStep(ssrc, b, at, k, n, last);
    SwapBlockFrame(Get32(b1, last) == ssrc, b1, last, last + 24);
    InsideFront(r, b1, last, block, block + 24);
    ConvertedIn(Get32(b, block) == ssrc, b, b, block, b1, r);
  }

  /** However many blocks there are, each is converted as if it were alone. */
  lemma {:induction false} BlocksConverted(ssrc: u32, b: seq<u8>, at: nat, n: nat, i: nat, block: nat)
    requires at + 24 * n <= |b| && i < n && block == at + 24 * i
    ensures Converted(Get32(b, block) == ssrc, b, block, SwapReports(ssrc, b, at, n))
  {
    var k, last := n - 1, BlockPos(at, n - 1);
    if i == k {
      LastConverted(ssrc, b, at, k, n, last);
    } else {
      BlocksConverted(ssrc, b, at, k, i, block);
      EarlierKept(ssrc, b, at, k, n, last, block);
    }
  }

  /** What a sender report that was taken leaves of the datagram. */
  lemma SrMemory(p: Peer, b: seq<u8>, msgsize: nat, now: int)
    requires 4 <= msgsize && Readable(b, msgsize) && b[1] == SR && ParseOne(p, b, msgsize, now).ok
    ensures 28 + 24 * Rc(b) <= |b|
    ensures var b2 := SwapWords(Swap(b, 2, 2), 8, 5);
            var r := ParseOne(p, b, msgsize, now).mem;
            b2[28..] == b[28..] && r == SwapReports(p.sendSsrc, b2, 28, Rc(b)) && r[..28] == b2[..28]
  {
    var b1 := Swap(b, 2, 2);
    HeaderSwapped(b);
    SwapWordsFrame(b1, 8, 5, 28);
    Behind(b1, b, 4, 28);
    ReportsFrame(p.sendSsrc, SwapWords(b1, 8, 5), 28, Rc(b), 28 + 24 * Rc(b));
  }

  /** Afterwards the five words of the sender information are in host order, each block is
      converted, and what is behind them is as received. */
  lemma SrConverted(p: Peer, b: seq<u8>, msgsize: nat, now: int, i: nat, block: nat)
    requires 4 <= msgsize && Readable(b, msgsize) && b[1] == SR && ParseOne(p, b, msgsize, now).ok
    requires i < Rc(b) && block == 28 + 24 * i
    ensures block + 24 <= |b| == |ParseOne(p, b, msgsize, now).mem|
    ensures Converted(Get32(b, block) == p.sendSsrc, b, block, ParseOne(p, b, msgsize, now).mem)
  {
    var b2, r := SwapWords(Swap(b, 2, 2), 8, 5), ParseOne(p, b, msgsize, now).mem;
    SrMemory(p, b, msgsize, now);
    BlocksConverted(p.sendSsrc, b2, 28, Rc(b), i, block);
    SameWord(b2, b, 28, block);
    InsideBack(b2, b, 28, block, block + 24);
    ConvertedIn(Get32(b, block) == p.sendSsrc, b2, b, block, r, r);
  }

  lemma InfoConverted(p: Peer, b: seq<u8>, msgsize: nat, now: int, i: nat, word: nat)
    requires 4 <= msgsize && Readable(b, msgsize) && b[1] == SR && ParseOne(p, b, msgsize, now).ok
    requires i < 5 && word == 8 + 4 * i
    ensures 28 <= |b| && HostWord(ParseOne(p, b, msgsize, now).mem, word) == Get32(b, word)
  {
    var b1 := Swap(b, 2, 2);
    SrMemory(p, b, msgsize, now);
    HeaderSwapped(b);
    WordsRead(b1, 8, 5, i, word);
    SameWord(b1, b, 4, word);
    SameHostWord(ParseOne(p, b, msgsize, now).mem, SwapWords(b1, 8, 5), 28, word);
  }

  /** The blocks of a receiver report the same way. */
  lemma RrConverted(p: Peer, b: seq<u8>, msgsize: nat, now: int, i: nat, block: nat)
    requires 4 <= msgsize && Readable(b, msgsize) && b[1] == RR && ParseOne(p, b, msgsize, now).ok
    requires i < Rc(b) && block == 8 + 24 * i
    ensures block + 24 <= |b| == |ParseOne(p, b, msgsize, now).mem|
    ensures Converted(Get32(b, block) == p.sendSsrc, b, block, ParseOne(p, b, msgsize, now).mem)
  {
    var b1, r := Swap(b, 2, 2), ParseOne(p, b, msgsize, now).mem;
    HeaderSwapped(b);
    assert r == SwapReports(p.sendSsrc, b1, 8, Rc(b));
    BlocksConverted(p.sendSsrc, b1, 8, Rc(b), i, block);
    SameWord(b1, b, 4, block);
    InsideBack(b1, b, 4, block, block + 24);
    ConvertedIn(Get32(b, block) == p.sendSsrc, b1, b, block, r, r);
  }

  // ----- source descriptions -----

  /** The items up to the end marker, as section 6.5 of RFC 3550 lays them out. */
  function ReadItems(b: seq<u8>): Option<seq<SdesItem>> {
    if b == [] then None
    else if b[0] == 0 then Some([])
    else if |b| < 2 || |b| - 2 < b[1] then None
    else
      var rest := ReadItems(b[2 + b[1]..]);
      if rest.Some? then Some([SdesItem(b[0], b[2..2 + b[1]])] + rest.value) else None
  }

  /** The items with their contents cut to 255 octets, up to the first of type 0. */
  function Told(items: seq<SdesItem>): (r: seq<SdesItem>)
    ensures |r| <= |items|
    ensures |r| == |items| <==> forall i :: 0 <= i < |items| ==> items[i].itemType != 0
  {
    if items == [] || items[0].itemType == 0 then []
    else [items[0].(content := Cut(items[0].content))] + Told(items[1..])
  }

  lemma OneItemRead(itemType: u8, text: seq<u8>, rest: seq<u8>)
    requires |text| <= MAX_STRING
    ensures ReadItems(([itemType, |text|] + text) + rest)
            == if itemType == 0 then Some([])
               else if ReadItems(rest).Some? then Some([SdesItem(itemType, text)] + ReadItems(rest).value) else None
  {
    var b := ([itemType, |text|] + text) + rest;
    assert b[2..2 + |text|] == text && b[2 + |text|..] == rest;
  }

  lemma {:induction false} ItemsRead(items: seq<SdesItem>, tail: seq<u8>)
    requires tail != [] && tail[0] == 0
    ensures ReadItems(ItemsBytes(items) + tail) == Some(Told(items))
  {
    if items == [] {
      assert ItemsBytes(items) + tail == tail;
    } else {
      var text, rest := Cut(items[0].content), ItemsBytes(items[1..]) + tail;
      assert ItemsBytes(items) + tail == ([items[0].itemType, |text|] + text) + rest;
      OneItemRead(items[0].itemType, text, rest);
      ItemsRead(items[1..], tail);
    }
  }

  /** A reader of the chunk finds the source and the items: all of them exactly if none is
      of type 0, which ends the list. Nothing but zeros fills the last word. */
  lemma SdesRead(ssrc: u32, items: seq<SdesItem>)
    ensures var b := SdesChunk(ssrc, items);
            && Get32(b, 0) == ssrc && ReadItems(b[4..]) == Some(Told(items))
            && (|Told(items)| == |items| <==> forall i :: 0 <= i < |items| ==> items[i].itemType != 0)
            && 4 + |ItemsBytes(items)| < |b| <= 4 + |ItemsBytes(items)| + 4
            && forall i :: 4 + |ItemsBytes(items)| <= i < |b| ==> b[i] == 0
  {
    var body, w := ItemsBytes(items), U32(ssrc);
    var zeros := [0] + Zeros((4 - (|w + body| + 1) % 4) % 4);
    assert SdesChunk(ssrc, items) == w + (body + zeros);
    U32RoundTrip(ssrc);
    ItemsRead(items, zeros);
  }
}
