/** The RTCP packets built by rtcp.c, byte for byte on the wire (sections 6.4, 6.5
    and 6.6 of RFC 3550). */
module Rtcp {
  import opened Wrappers
  import opened Modular

  const SR: u8 := 200
  const RR: u8 := 201
  const SDES: u8 := 202
  const BYE: u8 := 203
  const APP: u8 := 204

  const SR_SIZE: nat := 52
  const RR_SIZE: nat := 32
  const SDES_CHUNK_SIZE: nat := 1024
  const MAX_STRING: nat := 255

  // ----- words in network order -----

  function U32(n: u32): (b: seq<u8>)
    ensures |b| == 4
  {
    [n / 0x100_0000, n / 0x1_0000 % 256, n / 256 % 256, n % 256]
  }

  function Get16(b: seq<u8>, at: nat): u16
    requires at + 2 <= |b|
  {
    b[at] as int * 256 + b[at + 1]
  }

  /** ntohl of the word at an offset. */
  function Get32(b: seq<u8>, at: nat): u32
    requires at + 4 <= |b|
  {
    b[at] as int * 0x100_0000 + b[at + 1] as int * 0x1_0000 + b[at + 2] as int * 256 + b[at + 3]
  }

  /** The octets of a number. */
  lemma Octets(a: u8, b: u8, c: u8, d: u8)
    ensures var n := a as int + 256 * b + 0x1_0000 * c + 0x100_0000 * d;
            && n % 256 == a && n / 256 % 256 == b && n / 0x1_0000 % 256 == c && n / 0x100_0000 == d
            && n % 0x100_0000 == a as int + 256 * b + 0x1_0000 * c
            && U32(n) == [d, c, b, a]
  {
    var n := a as int + 256 * b + 0x1_0000 * c + 0x100_0000 * d;
    var n1, n2 := b as int + 256 * c + 0x1_0000 * d, c as int + 256 * d;
    assert n == a + 256 * n1 && n / 256 == n1;
    assert n == a as int + 256 * b + 0x1_0000 * n2 && n / 0x1_0000 == n2;
    assert n1 % 256 == b && n2 % 256 == c;
    assert n / 0x100_0000 == d;
  }

  lemma AsOctets(n: u32)
    ensures n == n % 256 + 256 * (n / 256 % 256) + 0x1_0000 * (n / 0x1_0000 % 256) + 0x100_0000 * (n / 0x100_0000)
  {
    var n1, n2 := n / 256, n / 0x1_0000;
    assert n == 256 * n1 + n % 256;
    assert n2 == n1 / 256 && n1 == 256 * n2 + n1 % 256;
    assert n / 0x100_0000 == n2 / 256 && n2 == 256 * (n2 / 256) + n2 % 256;
  }

  lemma U32RoundTrip(n: u32)
    ensures Get32(U32(n), 0) == n
  {
    AsOctets(n);
  }

  /** The macro that stands for both hton24 and ntoh24 on a little-endian host. */
  function Hton24(x: u32): u32 { x / 0x1_0000 % 256 + x % 256 * 0x1_0000 + x / 256 % 256 * 256 }

  lemma Hton24Twice(x: u32)
    ensures Hton24(Hton24(x)) == x % 0x100_0000 && Hton24(x) < 0x100_0000
  {
    var a, b, c := x % 256, x / 256 % 256, x / 0x1_0000 % 256;
    AsOctets(x);
    Octets(a, b, c, x / 0x100_0000);
    Octets(c, b, a, 0);
  }

  /** A 24-bit field of a little-endian host in memory. */
  function Le24(v: u32): seq<u8>
    requires v < 0x100_0000
  {
    [v % 256, v / 256 % 256, v / 0x1_0000]
  }

  function GetLe24(b: seq<u8>, at: nat): u32
    requires at + 3 <= |b|
  {
    b[at] as int + 256 * (b[at + 1] as int) + 0x1_0000 * (b[at + 2] as int)
  }

  /** What the macro stores for the loss count is its low 24 bits in network order. */
  lemma LossField(cum: u32, fraction: u8)
    ensures Hton24(cum) < 0x100_0000
    ensures [fraction] + Le24(Hton24(cum)) == U32(fraction * 0x100_0000 + cum % 0x100_0000)
  {
    var a, b, c := cum % 256, cum / 256 % 256, cum / 0x1_0000 % 256;
    AsOctets(cum);
    Octets(a, b, c, cum / 0x100_0000);
    Octets(c, b, a, 0);
    Octets(a, b, c, fraction);
  }

  // ----- packets -----

  datatype ReportBlock = ReportBlock(
    ssrc: u32, fractionLost: u8, cumLost: u32, extHighSeq: u32, jitter: u32, lsr: u32, dlsr: u32)

  datatype SenderInfo = SenderInfo(ntpMsw: u32, ntpLsw: u32, rtpTs: u32, packets: u32, octets: u32)

  datatype SdesItem = SdesItem(itemType: u8, content: seq<u8>)

  /** rtcp_common_header_init: version 2, no padding, a 5-bit count. */
  function Header(packetType: u8, rc: nat, bytesLen: nat): (b: seq<u8>)
    requires 4 <= bytesLen <= 0x4_0000
    ensures |b| == 4 && b[0] == 128 + rc % 32 && b[1] == packetType
    ensures bytesLen % 4 == 0 ==> Announced(b) == bytesLen
  {
    var length := Wrap16(bytesLen / 4 - 1);
    assert length / 256 < 256 && 256 * (length / 256) + length % 256 == length;
    [2 * 64 + rc % 32, packetType, length / 256, length % 256]
  }

  /** Four octets. */
  type Word = b: seq<u8> | |b| == 4 witness [0, 0, 0, 0]

  function Concat(ws: seq<Word>): (b: seq<u8>)
    ensures |b| == 4 * |ws|
  {
    if ws == [] then [] else ws[0] + Concat(ws[1..])
  }

  lemma {:induction false} WordAt(ws: seq<Word>, tail: seq<u8>, i: nat)
    requires i < |ws|
    ensures (Concat(ws) + tail)[4 * i..4 * i + 4] == ws[i]
  {
    if i > 0 {
      WordAt(ws[1..], tail, i - 1);
      assert Concat(ws) + tail == ws[0] + (Concat(ws[1..]) + tail);
    }
  }

  /** The word with the fraction and the 24-bit loss count. */
  function LossWord(fraction: u8, cum: u32): Word {
    Hton24Twice(cum);
    [fraction] + Le24(Hton24(cum))
  }

  function ReportBlockWords(rb: ReportBlock): (ws: seq<Word>)
    ensures |ws| == 6
  {
    [U32(rb.ssrc), LossWord(rb.fractionLost, rb.cumLost), U32(rb.extHighSeq), U32(rb.jitter), U32(rb.lsr), U32(rb.dlsr)]
  }

  function SenderInfoWords(si: SenderInfo): (ws: seq<Word>)
    ensures |ws| == 5
  {
    [U32(si.ntpMsw), U32(si.ntpLsw), U32(si.rtpTs), U32(si.packets), U32(si.octets)]
  }

  function SrWords(ssrc: u32, si: SenderInfo, rb: ReportBlock): (ws: seq<Word>)
    ensures 4 * |ws| == SR_SIZE
  {
    [Header(SR, 1, SR_SIZE), U32(ssrc)] + SenderInfoWords(si) + ReportBlockWords(rb)
  }

  function RrWords(ssrc: u32, rb: ReportBlock): (ws: seq<Word>)
    ensures 4 * |ws| == RR_SIZE
  {
    [Header(RR, 1, RR_SIZE), U32(ssrc)] + ReportBlockWords(rb)
  }

  /** rtcp_sr_init */
  function SrBytes(ssrc: u32, si: SenderInfo, rb: ReportBlock): seq<u8> { Concat(SrWords(ssrc, si, rb)) }

  /** rtcp_rr_init */
  function RrBytes(ssrc: u32, rb: ReportBlock): seq<u8> { Concat(RrWords(ssrc, rb)) }

  function Cut(s: seq<u8>): (r: seq<u8>)
    ensures |r| <= MAX_STRING
  {
    if |s| > MAX_STRING then s[..MAX_STRING] else s
  }

  function ItemsBytes(items: seq<SdesItem>): seq<u8> {
    if items == [] then []
    else [items[0].itemType, |Cut(items[0].content)|] + Cut(items[0].content) + ItemsBytes(items[1..])
  }

  function Zeros(n: nat): (b: seq<u8>)
    ensures |b| == n && forall i :: 0 <= i < n ==> b[i] == 0
  {
    if n == 0 then [] else [0] + Zeros(n - 1)
  }

  /** A source description chunk: the items, then the end marker padded to a word. */
  function SdesChunk(ssrc: u32, items: seq<SdesItem>): (b: seq<u8>)
    ensures |b| % 4 == 0 && |b| >= 8
  {
    var body := U32(ssrc) + ItemsBytes(items);
    body + [0] + Zeros((4 - (|body| + 1) % 4) % 4)
  }

  /** A chunk that sdes_chunk_append_item and sdes_chunk_pad leave in one block. */
  predicate FitsOneBlock(ssrc: u32, items: seq<SdesItem>) { |SdesChunk(ssrc, items)| <= SDES_CHUNK_SIZE }

  /** rtp_session_create_rtcp_sdes_packet without contributing sources. */
  function SdesBytes(ssrc: u32, items: seq<SdesItem>): (b: seq<u8>)
    requires FitsOneBlock(ssrc, items)
  {
    Header(SDES, 1, 4 + |SdesChunk(ssrc, items)|) + SdesChunk(ssrc, items)
  }

  /** rtcp_create_simple_bye_packet. For an empty reason the length octet is still
      appended, in a block of its own. */
  function ByeBytes(ssrc: u32, reason: Option<seq<u8>>): seq<u8> {
    if reason.None? then Header(BYE, 1, 8) + U32(ssrc)
    else
      var text := Cut(reason.value);
      var padding := if |text| > 0 then 3 - |text| % 4 else 0;
      var size := 8 + if |text| > 0 then 1 + |text| + padding else 0;
      Header(BYE, 1, size) + (U32(ssrc) + [|text|] + text + Zeros(padding))
  }

  // ----- packets by offset, as section 6.4 of RFC 3550 lays them out -----

  /** Header of a report with one block: version 2, no padding, type, length in words
      less one, source. */
  predicate HeaderOnWire(b: seq<u8>, packetType: u8, size: nat, ssrc: u32)
    requires |b| >= 8
  {
    b[0] == 0x81 && b[1] == packetType && 4 * (Get16(b, 2) + 1) == size && Get32(b, 4) == ssrc
  }

  predicate SenderInfoOnWire(b: seq<u8>, at: nat, msw: u32, lsw: u32, rtpTs: u32, packets: u32, octets: u32)
    requires at + 20 <= |b|
  {
    && Get32(b, at) == msw && Get32(b, at + 4) == lsw && Get32(b, at + 8) == rtpTs
    && Get32(b, at + 12) == packets && Get32(b, at + 16) == octets
  }

  function Get24(b: seq<u8>, at: nat): int
    requires at + 3 <= |b|
  {
    b[at] as int * 0x1_0000 + b[at + 1] as int * 0x100 + b[at + 2]
  }

  /** One report block; the cumulative loss has 24 bits. */
  predicate BlockOnWire(b: seq<u8>, at: nat, ssrc: u32, fraction: u8, cumLost: nat, extHighSeq: u32,
                        jitter: u32, lsr: u32, dlsr: u32)
    requires at + 24 <= |b|
  {
    && Get32(b, at) == ssrc && b[at + 4] == fraction
    && Get24(b, at + 5) == cumLost % 0x100_0000
    && Get32(b, at + 8) == extHighSeq && Get32(b, at + 12) == jitter
    && Get32(b, at + 16) == lsr && Get32(b, at + 20) == dlsr
  }

  lemma OctetsIn(ws: seq<Word>, post: seq<u8>, i: nat, at: nat)
    requires i < |ws| && at == 4 * i
    ensures var b := Concat(ws) + post;
            && at + 4 <= |b| && b[at] == ws[i][0] && b[at + 1] == ws[i][1]
            && b[at + 2] == ws[i][2] && b[at + 3] == ws[i][3]
  {
    WordAt(ws, post, i);
    var w := (Concat(ws) + post)[at..at + 4];
    assert w[0] == (Concat(ws) + post)[at];
  }

  lemma WordIn(ws: seq<Word>, post: seq<u8>, i: nat, at: nat, n: u32)
    requires i < |ws| && at == 4 * i && ws[i] == U32(n)
    ensures at + 4 <= |Concat(ws) + post| && Get32(Concat(ws) + post, at) == n
  {
    OctetsIn(ws, post, i, at);
    U32RoundTrip(n);
  }

  lemma LossWordOctets(fraction: u8, cum: u32)
    ensures var w := LossWord(fraction, cum);
            w[0] == fraction && Get24(w, 1) == cum % 0x100_0000
  {
    var a, b, c := cum % 256, cum / 256 % 256, cum / 0x1_0000 % 256;
    AsOctets(cum);
    Octets(a, b, c, cum / 0x100_0000);
    Octets(c, b, a, 0);
  }

  lemma LossIn(ws: seq<Word>, post: seq<u8>, i: nat, at: nat, fraction: u8, cum: u32)
    requires i < |ws| && at == 4 * i && ws[i] == LossWord(fraction, cum)
    ensures var b := Concat(ws) + post;
            at + 4 <= |b| && b[at] == fraction && Get24(b, at + 1) == cum % 0x100_0000
  {
    OctetsIn(ws, post, i, at);
    LossWordOctets(fraction, cum);
  }

  lemma SliceAt(ws: seq<Word>, k: nat, r: seq<Word>)
    requires k + |r| <= |ws| && ws[k..k + |r|] == r
    ensures forall i :: 0 <= i < |r| ==> ws[k + i] == r[i]
  {
    forall i | 0 <= i < |r| ensures ws[k + i] == r[i] { assert ws[k..k + |r|][i] == ws[k + i]; }
  }

  /** The block from word k on, by offset. */
  lemma BlockIn(ws: seq<Word>, post: seq<u8>, k: nat, at: nat, rb: ReportBlock)
    requires k + 6 <= |ws| && at == 4 * k && ws[k..k + 6] == ReportBlockWords(rb)
    ensures at + 24 <= |Concat(ws) + post|
    ensures BlockOnWire(Concat(ws) + post, at, rb.ssrc, rb.fractionLost, rb.cumLost, rb.extHighSeq, rb.jitter, rb.lsr,
                        rb.dlsr)
  {
    var r := ReportBlockWords(rb);
    SliceAt(ws, k, r);
    WordIn(ws, post, k, at, rb.ssrc);
    assert r[1] == ws[k + 1];
    LossIn(ws, post, k + 1, at + 4, rb.fractionLost, rb.cumLost);
    WordIn(ws, post, k + 2, at + 8, rb.extHighSeq);
    WordIn(ws, post, k + 3, at + 12, rb.jitter);
    WordIn(ws, post, k + 4, at + 16, rb.lsr);
    WordIn(ws, post, k + 5, at + 20, rb.dlsr);
  }

  lemma HeaderIn(ws: seq<Word>, post: seq<u8>, packetType: u8, size: nat, ssrc: u32)
    requires 4 <= size <= 0x4_0000 && size % 4 == 0
    requires |ws| >= 2 && ws[0] == Header(packetType, 1, size) && ws[1] == U32(ssrc)
    ensures |Concat(ws) + post| >= 8 && HeaderOnWire(Concat(ws) + post, packetType, size, ssrc)
  {
    OctetsIn(ws, post, 0, 0);
    WordIn(ws, post, 1, 4, ssrc);
    assert Announced(ws[0]) == size;
  }

  /** A sender report, by offset. */
  lemma SrOnWire(ssrc: u32, si: SenderInfo, rb: ReportBlock, post: seq<u8>)
    ensures var b := SrBytes(ssrc, si, rb) + post;
            && |b| == 52 + |post| && HeaderOnWire(b, SR, 52, ssrc)
            && SenderInfoOnWire(b, 8, si.ntpMsw, si.ntpLsw, si.rtpTs, si.packets, si.octets)
            && BlockOnWire(b, 28, rb.ssrc, rb.fractionLost, rb.cumLost, rb.extHighSeq, rb.jitter, rb.lsr, rb.dlsr)
  {
    var ws := SrWords(ssrc, si, rb);
    HeaderIn(ws, post, SR, 52, ssrc);
    WordIn(ws, post, 2, 8, si.ntpMsw);
    WordIn(ws, post, 3, 12, si.ntpLsw);
    WordIn(ws, post, 4, 16, si.rtpTs);
    WordIn(ws, post, 5, 20, si.packets);
    WordIn(ws, post, 6, 24, si.octets);
    assert ws[7..13] == ReportBlockWords(rb);
    BlockIn(ws, post, 7, 28, rb);
  }

  /** A receiver report, by offset. */
  lemma RrOnWire(ssrc: u32, rb: ReportBlock, post: seq<u8>)
    ensures var b := RrBytes(ssrc, rb) + post;
            && |b| == 32 + |post| && HeaderOnWire(b, RR, 32, ssrc)
            && BlockOnWire(b, 8, rb.ssrc, rb.fractionLost, rb.cumLost, rb.extHighSeq, rb.jitter, rb.lsr, rb.dlsr)
  {
    var ws := RrWords(ssrc, rb);
    HeaderIn(ws, post, RR, 32, ssrc);
    assert ws[2..8] == ReportBlockWords(rb);
    BlockIn(ws, post, 2, 8, rb);
  }

  /** The size a packet's length field announces. */
  function Announced(b: seq<u8>): nat
    requires |b| >= 4
  {
    (Get16(b, 2) + 1) * 4
  }

  lemma SrLength(ssrc: u32, si: SenderInfo, rb: ReportBlock)
    ensures Announced(SrBytes(ssrc, si, rb)) == |SrBytes(ssrc, si, rb)| == SR_SIZE
  {
    var ws := SrWords(ssrc, si, rb);
    assert Concat(ws) == ws[0] + Concat(ws[1..]);
  }

  lemma RrLength(ssrc: u32, rb: ReportBlock)
    ensures Announced(RrBytes(ssrc, rb)) == |RrBytes(ssrc, rb)| == RR_SIZE
  {
    var ws := RrWords(ssrc, rb);
    assert Concat(ws) == ws[0] + Concat(ws[1..]);
  }

  lemma SdesLength(ssrc: u32, items: seq<SdesItem>)
    requires FitsOneBlock(ssrc, items)
    ensures Announced(SdesBytes(ssrc, items)) == |SdesBytes(ssrc, items)|
  {
  }

  /** The length field of a goodbye is right, unless its reason is empty. */
  lemma ByeLength(ssrc: u32, reason: Option<seq<u8>>)
    ensures |ByeBytes(ssrc, reason)| >= 8
    ensures Announced(ByeBytes(ssrc, reason)) == |ByeBytes(ssrc, reason)| - if reason == Some([]) then 1 else 0
    ensures Announced(ByeBytes(ssrc, reason)) == |ByeBytes(ssrc, reason)| <==> reason != Some([])
  {
    if reason.Some? {
      Padded(|Cut(reason.value)|);
    }
  }

  lemma Padded(n: nat)
    ensures (8 + (1 + n + (3 - n % 4))) % 4 == 0
  {
    assert n == 4 * (n / 4) + n % 4;
  }
}
