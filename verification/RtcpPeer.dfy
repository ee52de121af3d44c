/** What a peer learns from the octets rtcp_sr_init and rtcp_rr_init write, field by
    field against the session that wrote them. */
module RtcpPeer {
  import opened Modular
  import opened Rtcp
  import opened RtcpParse
  import opened RtcpBuild
  import opened RtcpFields

  /** The peer's new report, if the block is about the peer: each field as given. */
  predicate Learned(p: Peer, p1: Peer, ssrc: u32, fraction: u8, cumLost: nat, extHighSeq: u32, jitter: u32, lsr: u32,
                    dlsr: u32)
  {
    if ssrc != p.sendSsrc then p1.reports == p.reports
    else
      && |p1.reports| == |p.reports| + 1 && p1.reports[..|p.reports|] == p.reports
      && var rb := p1.reports[|p.reports|];
      && rb.ssrc == ssrc && rb.fractionLost == fraction && rb.cumLost == cumLost % 0x100_0000
      && rb.extHighSeq == extHighSeq && rb.jitter == jitter && rb.lsr == lsr && rb.dlsr == dlsr
  }

  lemma BlockLearned(p: Peer, p1: Peer, b: seq<u8>, at: nat, ssrc: u32, fraction: u8, cumLost: nat, extHighSeq: u32,
                     jitter: u32, lsr: u32, dlsr: u32)
    requires at + 24 <= |b| && BlockOnWire(b, at, ssrc, fraction, cumLost, extHighSeq, jitter, lsr, dlsr)
    requires p1.reports == p.reports + BlocksAbout(p.sendSsrc, b, at, 1)
    ensures Learned(p, p1, ssrc, fraction, cumLost, extHighSeq, jitter, lsr, dlsr)
  {
    Loss24(b, at + 5);
    BlocksStep(p.sendSsrc, b, at, 0, 1, at);
    assert BlocksAbout(p.sendSsrc, b, at, 0) == [];
  }

  /** A peer that knows the sender takes the report: the middle of the time sent, the
      block if it is about the peer, and nothing else. */
  lemma PeerReadsSr(src: ReportSource, tvSec: nat, ntpLsw: u32, fraction: u8, dlsr: u32, p: Peer, b: seq<u8>, n: nat,
                    now: int)
    requires 52 <= n && Readable(b, n) && p.recvSsrc == src.sendSsrc
    requires HeaderOnWire(b, SR, 52, src.sendSsrc)
    requires SenderInfoOnWire(b, 8, Wrap32(tvSec + 0x83AA_7E80), ntpLsw, src.sndLastTs, Wrap32(src.packetSent),
                              Wrap32(src.sent))
    requires BlockOnWire(b, 28, src.recvSsrc, fraction, src.cumPacketLoss, src.hwrcvExtseq, src.interJitter,
                         src.lastRcvSrTs, dlsr)
    ensures var r := ParseOne(p, b, n, now);
            && r.ok && r.mem[52..] == b[52..]
            && r.peer == p.(lastSrTs := r.peer.lastSrTs, lastSrTime := now, reports := r.peer.reports)
            && r.peer.lastSrTs == (tvSec + 0x83AA_7E80) % 0x1_0000 * 0x1_0000 + ntpLsw / 0x1_0000
            && Learned(p, r.peer, src.recvSsrc, fraction, src.cumPacketLoss, src.hwrcvExtseq, src.interJitter,
                       src.lastRcvSrTs, dlsr)
  {
    SrTaken(p, b, n, now);
    BlockLearned(p, ParseOne(p, b, n, now).peer, b, 28, src.recvSsrc, fraction, src.cumPacketLoss, src.hwrcvExtseq,
                 src.interJitter, src.lastRcvSrTs, dlsr);
    LowHalf(tvSec + 0x83AA_7E80);
    PacketFrame(p, b, n, now, 52);
  }

  lemma LowHalf(n: nat)
    ensures Wrap32(n) % 0x1_0000 == n % 0x1_0000
  {
    var q, r := n / M32, n % M32;
    assert n == 0x1_0000 * (0x1_0000 * q) + r;
  }

  /** A receiver report, also by a peer that knows no sender yet and adopts it. */
  lemma PeerReadsRr(src: ReportSource, fraction: u8, dlsr: u32, p: Peer, b: seq<u8>, n: nat, now: int)
    requires 32 <= n && Readable(b, n) && (p.recvSsrc == src.sendSsrc || p.recvSsrc == 0)
    requires HeaderOnWire(b, RR, 32, src.sendSsrc)
    requires BlockOnWire(b, 8, src.recvSsrc, fraction, src.cumPacketLoss, src.hwrcvExtseq, src.interJitter,
                         src.lastRcvSrTs, dlsr)
    ensures var r := ParseOne(p, b, n, now);
            && r.ok && r.mem[32..] == b[32..]
            && r.peer == p.(recvSsrc := src.sendSsrc, reports := r.peer.reports)
            && Learned(p, r.peer, src.recvSsrc, fraction, src.cumPacketLoss, src.hwrcvExtseq, src.interJitter,
                       src.lastRcvSrTs, dlsr)
  {
    RrTaken(p, b, n, now);
    BlockLearned(p, ParseOne(p, b, n, now).peer, b, 8, src.recvSsrc, fraction, src.cumPacketLoss, src.hwrcvExtseq,
                 src.interJitter, src.lastRcvSrTs, dlsr);
    PacketFrame(p, b, n, now, 32);
  }

  /** The time a sender put into its report comes back in the answer: a session that notes
      it and reports on the sender names the middle of that time. */
  lemma TimeComesBack(sender: ReportSource, tvSec: nat, ntpLsw: u32, sr: seq<u8>, a: Peer, at: int,
                      answerer: ReportSource, fraction: u8, dlsr: u32, rr: seq<u8>, p: Peer, now: int)
    requires Readable(sr, 52) && a.recvSsrc == sender.sendSsrc && HeaderOnWire(sr, SR, 52, sender.sendSsrc)
    requires SenderInfoOnWire(sr, 8, Wrap32(tvSec + 0x83AA_7E80), ntpLsw, sender.sndLastTs, Wrap32(sender.packetSent),
                              Wrap32(sender.sent))
    requires answerer.lastRcvSrTs == ParseOne(a, sr, 52, at).peer.lastSrTs
    requires Readable(rr, 32) && HeaderOnWire(rr, RR, 32, answerer.sendSsrc)
    requires BlockOnWire(rr, 8, answerer.recvSsrc, fraction, answerer.cumPacketLoss, answerer.hwrcvExtseq,
                         answerer.interJitter, answerer.lastRcvSrTs, dlsr)
    requires p.recvSsrc == answerer.sendSsrc && p.sendSsrc == answerer.recvSsrc
    ensures var p1 := ParseOne(p, rr, 32, now).peer;
            && |p1.reports| == |p.reports| + 1
            && p1.reports[|p.reports|].lsr == (tvSec + 0x83AA_7E80) % 0x1_0000 * 0x1_0000 + ntpLsw / 0x1_0000
  {
    SrTaken(a, sr, 52, at);
    LowHalf(tvSec + 0x83AA_7E80);
    PeerReadsRr(answerer, fraction, dlsr, p, rr, 32, now);
  }
}
