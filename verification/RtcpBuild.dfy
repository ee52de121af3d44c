/** The report builders of rtcp.c, which fill a buffer in place and reset the loss
    counters of the stream. */
module RtcpBuild {
  import opened Modular
  import opened Rtcp
  import LossAccounting

  class ReportSource {
    const sendSsrc: u32
    const recvSsrc: u32
    var hwrcvExtseq: u32
    var hwrcvSeqAtLastSr: u32
    var hwrcvSinceLastSr: u32
    var cumPacketLoss: nat
    var interJitter: u32
    var lastRcvSrTs: u32
    var sndLastTs: u32
    var packetSent: nat
    var sent: nat

    function Counters(): LossAccounting.Counters
      reads this
    {
      LossAccounting.Counters(hwrcvExtseq, hwrcvSeqAtLastSr, hwrcvSinceLastSr, cumPacketLoss)
    }

    constructor (sendSsrc: u32, recvSsrc: u32)
      ensures this.sendSsrc == sendSsrc && this.recvSsrc == recvSsrc
      ensures Counters() == LossAccounting.Counters(0, 0, 0, 0) && interJitter == 0 && lastRcvSrTs == 0
    {
      this.sendSsrc, this.recvSsrc := sendSsrc, recvSsrc;
      hwrcvExtseq, hwrcvSeqAtLastSr, hwrcvSinceLastSr, cumPacketLoss := 0, 0, 0, 0;
      interJitter, lastRcvSrTs, sndLastTs, packetSent, sent := 0, 0, 0, 0, 0;
    }

    /** The block report_block_init fills in for counters already brought up to date. */
    function Block(fraction: u8, dlsr: u32): ReportBlock
      reads this
    {
      ReportBlock(recvSsrc, fraction, Wrap32(cumPacketLoss), hwrcvExtseq, interJitter, lastRcvSrTs, dlsr)
    }

    /** report_block_init; the fraction and the delay are computed from floats and
        the time of day. */
    method ReportBlockInit(buf: array<u8>, at: nat, fraction: u8, dlsr: u32)
      requires at + 24 <= buf.Length
      modifies this`hwrcvSeqAtLastSr, this`hwrcvSinceLastSr, this`cumPacketLoss, buf
      ensures Counters() == LossAccounting.Report(old(Counters()))
      ensures buf[..] == old(buf[..at]) + Concat(ReportBlockWords(Block(fraction, dlsr))) + old(buf[at + 24..])
      ensures BlockOnWire(buf[at..], 0, recvSsrc, fraction, cumPacketLoss, hwrcvExtseq, interJitter, lastRcvSrTs, dlsr)
    {
      var packetLoss: u32 := 0;
      if hwrcvSeqAtLastSr != 0 {
        packetLoss := Wrap32(hwrcvExtseq - hwrcvSeqAtLastSr - hwrcvSinceLastSr);
        cumPacketLoss := cumPacketLoss + packetLoss;
      }
      hwrcvSinceLastSr := 0;
      hwrcvSeqAtLastSr := hwrcvExtseq;
      Store(buf, at, Concat(ReportBlockWords(Block(fraction, dlsr))));
      StoredBlock(buf[..], old(buf[..at]), Block(fraction, dlsr), cumPacketLoss, old(buf[at + 24..]));
      assert buf[..][at..] == buf[at..];
    }

    /** sender_info_init for a time of day, its microseconds already turned into a
        fraction of a second by floats. */
    function Info(tvSec: nat, ntpLsw: u32): SenderInfo
      reads this
    {
      SenderInfo(Wrap32(tvSec + 0x83AA_7E80), ntpLsw, sndLastTs, Wrap32(packetSent), Wrap32(sent))
    }

    /** rtcp_sr_init */
    method SrInit(buf: array<u8>, tvSec: nat, ntpLsw: u32, fraction: u8, dlsr: u32) returns (n: int)
      modifies this`hwrcvSeqAtLastSr, this`hwrcvSinceLastSr, this`cumPacketLoss, buf
      ensures buf.Length < SR_SIZE ==> n == -1 && buf[..] == old(buf[..]) && Counters() == old(Counters())
      ensures buf.Length >= SR_SIZE ==>
                && n == SR_SIZE && Counters() == LossAccounting.Report(old(Counters()))
                && buf[..SR_SIZE] == SrBytes(sendSsrc, Info(tvSec, ntpLsw), Block(fraction, dlsr))
                && buf[SR_SIZE..] == old(buf[SR_SIZE..])
      ensures buf.Length >= SR_SIZE ==>
                && HeaderOnWire(buf[..], SR, 52, sendSsrc)
                && SenderInfoOnWire(buf[..], 8, Wrap32(tvSec + 0x83AA_7E80), ntpLsw, sndLastTs, Wrap32(packetSent),
                                    Wrap32(sent))
                && BlockOnWire(buf[..], 28, recvSsrc, fraction, cumPacketLoss, hwrcvExtseq, interJitter, lastRcvSrTs,
                               dlsr)
    {
      if buf.Length < SR_SIZE { return -1; }
      ghost var si := Info(tvSec, ntpLsw);
      Store(buf, 0, Concat([Header(SR, 1, SR_SIZE), U32(sendSsrc)]));
      Store(buf, 8, Concat(SenderInfoWords(Info(tvSec, ntpLsw))));
      ReportBlockInit(buf, 28, fraction, dlsr);
      SrInThree(sendSsrc, si, Block(fraction, dlsr));
      SrOnWire(sendSsrc, si, Block(fraction, dlsr), buf[SR_SIZE..]);
      assert buf[..] == buf[..SR_SIZE] + buf[SR_SIZE..];
      Wrapped24(cumPacketLoss);
      return SR_SIZE;
    }

    /** rtcp_rr_init */
    method RrInit(buf: array<u8>, fraction: u8, dlsr: u32) returns (n: int)
      modifies this`hwrcvSeqAtLastSr, this`hwrcvSinceLastSr, this`cumPacketLoss, buf
      ensures buf.Length < RR_SIZE ==> n == -1 && buf[..] == old(buf[..]) && Counters() == old(Counters())
      ensures buf.Length >= RR_SIZE ==>
                && n == RR_SIZE && Counters() == LossAccounting.Report(old(Counters()))
                && buf[..RR_SIZE] == RrBytes(sendSsrc, Block(fraction, dlsr))
                && buf[RR_SIZE..] == old(buf[RR_SIZE..])
      ensures buf.Length >= RR_SIZE ==>
                && HeaderOnWire(buf[..], RR, 32, sendSsrc)
                && BlockOnWire(buf[..], 8, recvSsrc, fraction, cumPacketLoss, hwrcvExtseq, interJitter, lastRcvSrTs,
                               dlsr)
    {
      if buf.Length < RR_SIZE { return -1; }
      Store(buf, 0, Concat([Header(RR, 1, RR_SIZE), U32(sendSsrc)]));
      ReportBlockInit(buf, 8, fraction, dlsr);
      ConcatSum([Header(RR, 1, RR_SIZE), U32(sendSsrc)], ReportBlockWords(Block(fraction, dlsr)));
      RrOnWire(sendSsrc, Block(fraction, dlsr), buf[RR_SIZE..]);
      assert buf[..] == buf[..RR_SIZE] + buf[RR_SIZE..];
      Wrapped24(cumPacketLoss);
      return RR_SIZE;
    }
  }

  lemma SrInThree(ssrc: u32, si: SenderInfo, rb: ReportBlock)
    ensures SrBytes(ssrc, si, rb)
            == Concat([Header(SR, 1, SR_SIZE), U32(ssrc)]) + Concat(SenderInfoWords(si)) + Concat(ReportBlockWords(rb))
  {
    ConcatSum([Header(SR, 1, SR_SIZE), U32(ssrc)], SenderInfoWords(si));
    ConcatSum([Header(SR, 1, SR_SIZE), U32(ssrc)] + SenderInfoWords(si), ReportBlockWords(rb));
  }

  /** Octets written in place. */
  method Store(buf: array<u8>, at: nat, data: seq<u8>)
    requires at + |data| <= buf.Length
    modifies buf
    ensures buf[..] == old(buf[..at]) + data + old(buf[at + |data|..])
  {
    var i := 0;
    while i < |data|
      invariant 0 <= i <= |data|
      invariant forall k :: 0 <= k < at ==> buf[k] == old(buf[k])
      invariant forall k :: 0 <= k < i ==> buf[at + k] == data[k]
      invariant forall k :: at + i <= k < buf.Length ==> buf[k] == old(buf[k])
    {
      buf[at + i] := data[i];
      i := i + 1;
    }
    assert buf[at..at + |data|] == data;
    assert buf[..] == buf[..at] + buf[at..at + |data|] + buf[at + |data|..];
  }

  lemma StoredBlock(b: seq<u8>, pre: seq<u8>, rb: ReportBlock, cum: nat, post: seq<u8>)
    requires b == pre + Concat(ReportBlockWords(rb)) + post && rb.cumLost == Wrap32(cum)
    ensures |b| == |pre| + 24 + |post|
    ensures BlockOnWire(b[|pre|..], 0, rb.ssrc, rb.fractionLost, cum, rb.extHighSeq, rb.jitter, rb.lsr, rb.dlsr)
  {
    BlockAlone(rb, cum, post);
    assert b[|pre|..] == Concat(ReportBlockWords(rb)) + post;
  }

  lemma BlockAlone(rb: ReportBlock, cum: nat, post: seq<u8>)
    requires rb.cumLost == Wrap32(cum)
    ensures BlockOnWire(Concat(ReportBlockWords(rb)) + post, 0, rb.ssrc, rb.fractionLost, cum, rb.extHighSeq, rb.jitter,
                        rb.lsr, rb.dlsr)
  {
    var ws := ReportBlockWords(rb);
    assert ws[0..6] == ws;
    BlockIn(ws, post, 0, 0, rb);
    Wrapped24(cum);
  }

  /** A count cut to 32 bits has the same low 24 bits. */
  lemma Wrapped24(n: nat)
    ensures Wrap32(n) % 0x100_0000 == n % 0x100_0000
  {
    var q, r := n / M32, n % M32;
    assert n == 0x100_0000 * (256 * q) + r;
  }

  lemma {:induction false} ConcatSum(a: seq<Word>, b: seq<Word>)
    ensures Concat(a + b) == Concat(a) + Concat(b)
  {
    if a == [] {
      assert a + b == b;
    } else {
      ConcatSum(a[1..], b);
      assert (a + b)[1..] == a[1..] + b;
    }
  }
}
