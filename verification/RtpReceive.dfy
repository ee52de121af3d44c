/** The receive path of a session: rtp_parse and split_and_queue of rtpparse.c,
    rtp_recv and rtp_session_recvm_with_ts of rtpsession.c. */
module RtpReceive {
  import opened Wrappers
  import opened Modular
  import opened RtpQueue
  import opened Jitter
  import LossAccounting


  const FIXED_HEADER: int := 12

  /** What a known payload type fixes: the jitter compensation in timestamp
      units and the corrective step, both computed from its clock rate. */
  datatype PayloadParams = PayloadParams(compTs: int, step: int)

  /** Of rtp_stats_t, the packet counters of the receive side. */
  datatype Stats = Stats(packetRecv: nat, bad: nat, outOfTime: nat, discarded: nat, skipped: nat, unavailable: nat)

  datatype Rcv = Rcv(
    rq: seq<Packet>, sync: bool, diffTs: u32, hwDiffTs: u32, lastTs: u32,
    jc: Control, hwPt: int, recvPt: int, ssrc: u32, extSeq: u32, sinceSr: u32, stats: Stats)

  /** The settings an operation reads and none changes. */
  datatype Config = Config(maxRq: nat, tsJump: u32, profile: map<nat, PayloadParams>)

  /** Header with no payload behind it. */
  predicate IsEmpty(p: Packet) { p.size == FIXED_HEADER + 4 * p.cc }

  predicate IsBad(p: Packet) { p.version != 2 || 4 * p.cc > Wrap32(p.size - FIXED_HEADER) }

  /** Queue length in excess of the limit. */
  function Excess(n: nat, max: nat): nat { if n > max then n - max else 0 }

  /** split_and_queue: the new queue and the number of packets discarded. */
  function SplitSpec(q: seq<Packet>, max: nat, p: Packet): (seq<Packet>, nat) {
    if IsEmpty(p) then (q, 1)
    else
      var q1 := PutSpec(q, p);
      (q1[Excess(|q1|, max)..], Excess(|q1|, max))
  }

  /** The lateness filter: the timestamp is not a jump ahead, and not newer than
      the last one asked for. */
  predicate TooLate(ts: u32, lastTs: u32, jump: u32) {
    !TsIsNewer(ts, Wrap32(lastTs + jump)) && TsIsNewer(lastTs, ts)
  }

  /** rtp_session_update_payload_type */
  function LoadPayload(cfg: Config, s: Rcv, pt: nat): Rcv {
    if pt in cfg.profile then
      var pp := cfg.profile[pt];
      s.(hwPt := pt, jc := s.jc.(compTs := pp.compTs, adaptCompTs := pp.compTs, step := pp.step))
    else s.(hwPt := pt)
  }

  /** It is called for a type other than the one set. */
  function SetPayload(cfg: Config, s: Rcv, pt: nat): Rcv { if s.hwPt == pt then s else LoadPayload(cfg, s, pt) }

  function EnqueueSpec(cfg: Config, s: Rcv, p: Packet): Rcv {
    var (q, d) := SplitSpec(s.rq, cfg.maxRq, p);
    s.(rq := q, stats := s.stats.(discarded := s.stats.discarded + d))
  }

  /** What every accepted header updates, before the jitter control is consulted. */
  function HeaderSpec(cfg: Config, s: Rcv, p: Packet): Rcv {
    SetPayload(cfg, s.(ssrc := p.ssrc, extSeq := LossAccounting.NextExtSeq(s.extSeq, p.seqno)), p.paytype)
  }

  function CountReceived(s: Rcv): Rcv {
    s.(sinceSr := Wrap32(s.sinceSr + 1), stats := s.stats.(packetRecv := s.stats.packetRecv + 1))
  }

  function CountBad(s: Rcv): Rcv { s.(stats := s.stats.(bad := s.stats.bad + 1)) }

  /** The jitter control sees the packet and sets the timestamp offset anew. */
  function JitterSpec(s: Rcv, p: Packet, localTs: u32): Rcv {
    var jc := NewPacketSpec(s.jc, TsDiff(p.ts, localTs));
    s.(jc := jc, diffTs := Wrap32(s.hwDiffTs + SlideOut(jc) - DelayOut(jc)))
  }

  /** Queueing with the lateness filter of a session that is past synchronisation. */
  function FilterSpec(cfg: Config, s: Rcv, p: Packet): Rcv {
    if TooLate(p.ts, s.lastTs, cfg.tsJump) then s.(stats := s.stats.(outOfTime := s.stats.outOfTime + 1))
    else EnqueueSpec(cfg, s, p)
  }

  /** rtp_parse */
  function ParseSpec(cfg: Config, s: Rcv, p: Packet, localTs: u32): Rcv {
    if IsBad(p) then CountBad(CountReceived(s))
    else
      var s2 := HeaderSpec(cfg, CountReceived(s), p);
      if s2.sync then EnqueueSpec(cfg, s2, p) else FilterSpec(cfg, JitterSpec(s2, p, localTs), p)
  }

  /** One datagram taken off the socket by rtp_recv. */
  function DatagramSpec(cfg: Config, s: Rcv, p: Packet, userTs: u32): Rcv {
    if p.size < FIXED_HEADER then CountBad(s)
    else ParseSpec(cfg, s, p, Wrap32(userTs + s.hwDiffTs))
  }

  function RecvSpec(cfg: Config, s: Rcv, ps: seq<Packet>, userTs: u32): Rcv {
    if ps == [] then s
    else DatagramSpec(cfg, RecvSpec(cfg, s, ps[..|ps| - 1], userTs), ps[|ps| - 1], userTs)
  }

  /** The first return of a synchronising session needs this much buffered. */
  predicate Buffered(s: Rcv) {
    s.rq != [] && Wrap32(s.rq[|s.rq| - 1].ts - s.rq[0].ts) >= Wrap32(s.jc.compTs)
  }

  /** Selection of the packet rtp_session_recvm_with_ts returns. */
  function SelectSpec(s: Rcv, userTs: u32): (Rcv, Option<Packet>) {
    if s.sync then
      if !Buffered(s) then (s, None)
      else
        var p := s.rq[0];
        var d := Wrap32(p.ts - userTs);
        (s.(rq := s.rq[1..], diffTs := d, hwDiffTs := Wrap32(d + s.jc.compTs), lastTs := p.ts, ssrc := p.ssrc,
            sync := false),
         Some(p))
    else
      var ts := Wrap32(userTs + s.diffTs);
      var k := TakenCount(s.rq, ts);
      var rejected := if k == 0 then 0 else k - 1;
      (s.(rq := s.rq[k..], lastTs := ts, stats := s.stats.(skipped := s.stats.skipped + rejected)),
       if k == 0 then None else Some(s.rq[k - 1]))
  }

  /** The selection of a synchronised session, once the prefix taken is known. */
  lemma TimeSelected(s: Rcv, userTs: u32, ts: u32, k: nat, rejected: nat)
    requires !s.sync && ts == Wrap32(userTs + s.diffTs) && k == TakenCount(s.rq, ts)
    requires rejected == if k == 0 then 0 else k - 1
    ensures SelectSpec(s, userTs).0
            == s.(rq := s.rq[k..], lastTs := ts, stats := s.stats.(skipped := s.stats.skipped + rejected))
    ensures SelectSpec(s, userTs).1 == if k == 0 then None else Some(s.rq[k - 1])
  {
  }

  /** What follows the selection: counters, payload type, timestamp patch. */
  function DeliverSpec(s: Rcv, r: Option<Packet>): (Rcv, Option<Packet>) {
    match r
    case None => (s.(stats := s.stats.(unavailable := s.stats.unavailable + 1)), None)
    case Some(p) =>
      (s.(recvPt := p.paytype),
       Some(if s.jc.adaptive then p.(ts := Wrap32(p.ts - s.jc.corrective)) else p))
  }

  function RecvmSpec(cfg: Config, s: Rcv, ps: seq<Packet>, userTs: u32): (Rcv, Option<Packet>) {
    var (s1, r) := SelectSpec(RecvSpec(cfg, s, ps, userTs), userTs);
    DeliverSpec(s1, r)
  }

  class RtpSession {
    const cfg: Config
    const rq: Queue
    const jittctl: JitterControl
    var sync: bool
    var diffTs: u32
    var hwDiffTs: u32
    var lastTs: u32
    var hwPt: int
    var recvPt: int
    var ssrc: u32
    var extSeq: u32
    var sinceSr: u32
    var stats: Stats

    ghost predicate Valid()
      reads this, rq, rq.blocks, jittctl
    {
      rq.Valid()
    }

    ghost function View(): Rcv
      reads this, rq, jittctl
    {
      Rcv(rq.packets, sync, diffTs, hwDiffTs, lastTs, jittctl.View(), hwPt, recvPt, ssrc, extSeq, sinceSr, stats)
    }

    /** A session that has received nothing yet: rtp_session_init, then the
        application's settings. */
    constructor (cfg: Config, pt: int, compTs: int, step: int, adaptive: bool)
      ensures Valid() && fresh(rq) && fresh(rq.blocks) && fresh(jittctl) && this.cfg == cfg
      ensures View() == Fresh(pt, compTs, step, adaptive)
    {
      this.cfg := cfg;
      rq := new Queue();
      jittctl := new JitterControl(compTs, step, adaptive);
      sync := true;
      diffTs, hwDiffTs, lastTs, ssrc, extSeq, sinceSr := 0, 0, 0, 0, 0, 0;
      hwPt, recvPt := pt, pt;
      stats := Stats(0, 0, 0, 0, 0, 0);
    }

    /** split_and_queue */
    method SplitAndQueue(mp: Mblk) returns (discarded: nat)
      requires Valid() && mp !in rq.blocks
      modifies rq, rq.blocks, mp
      ensures Valid()
      ensures rq.blocks <= old(rq.blocks) + {mp}
      ensures (rq.packets, discarded) == SplitSpec(old(rq.packets), cfg.maxRq, old(mp.pkt))
    {
      var headerSize := FIXED_HEADER + 4 * mp.pkt.cc;
      if mp.pkt.size == headerSize { return 1; }
      discarded := 0;
      var queued := rq.RtpPutq(mp);
      ghost var q1 := rq.packets;
      while rq.count > cfg.maxRq
        invariant Valid() && discarded <= Excess(|q1|, cfg.maxRq)
        invariant rq.packets == q1[discarded..]
        invariant rq.blocks <= old(rq.blocks) + {mp}
        decreases rq.count
      {
        var tmp := rq.Getq();
        discarded := discarded + 1;
      }
    }

    /** rtp_session_update_payload_type */
    method UpdatePayloadType(pt: nat)
      requires Valid()
      modifies this, jittctl
      ensures Valid()
      ensures View() == LoadPayload(cfg, old(View()), pt)
    {
      if pt in cfg.profile {
        jittctl.compTs := cfg.profile[pt].compTs;
        jittctl.step := cfg.profile[pt].step;
        jittctl.adaptCompTs := jittctl.compTs;
      }
      hwPt := pt;
    }

    /** rtp_parse */
    method RtpParse(mp: Mblk, localTs: u32)
      requires Valid() && mp !in rq.blocks
      modifies this, rq, rq.blocks, jittctl, mp
      ensures Valid()
      ensures rq.blocks <= old(rq.blocks) + {mp}
      ensures View() == ParseSpec(cfg, old(View()), old(mp.pkt), localTs)
    {
      var p := mp.pkt;
      stats := stats.(packetRecv := stats.packetRecv + 1);
      sinceSr := Wrap32(sinceSr + 1);
      assert View() == CountReceived(old(View()));
      if p.version != 2 {
        stats := stats.(bad := stats.bad + 1);
        return;
      }
      if p.cc * 4 > Wrap32(p.size - FIXED_HEADER) {
        stats := stats.(bad := stats.bad + 1);
        return;
      }
      UpdateFromHeader(p);
      if !sync {
        UpdateOffset(p, localTs);
        Filter(mp);
      } else {
        Enqueue(mp);
      }
    }

    /** The lateness test of rtp_parse and what follows it. */
    method Filter(mp: Mblk)
      requires Valid() && mp !in rq.blocks
      modifies this, rq, rq.blocks, mp
      ensures Valid() && rq.blocks <= old(rq.blocks) + {mp}
      ensures View() == FilterSpec(cfg, old(View()), old(mp.pkt))
    {
      if TsIsNewer(mp.pkt.ts, Wrap32(lastTs + cfg.tsJump)) {
        // the jump is only signalled
      } else if TsIsNewer(lastTs, mp.pkt.ts) {
        stats := stats.(outOfTime := stats.outOfTime + 1);
        return;
      }
      Enqueue(mp);
    }

    /** The jitter control call of rtp_parse and the offset it sets. */
    method UpdateOffset(p: Packet, localTs: u32)
      requires Valid()
      modifies this, jittctl
      ensures Valid() && View() == JitterSpec(old(View()), p, localTs)
    {
      var slide, safeDelay := jittctl.NewPacket(p.ts, localTs);
      diffTs := Wrap32(hwDiffTs + slide - safeDelay);
    }

    /** The end of rtp_parse. */
    method Enqueue(mp: Mblk)
      requires Valid() && mp !in rq.blocks
      modifies this, rq, rq.blocks, mp
      ensures Valid() && rq.blocks <= old(rq.blocks) + {mp}
      ensures View() == EnqueueSpec(cfg, old(View()), old(mp.pkt))
    {
      var i := SplitAndQueue(mp);
      stats := stats.(discarded := stats.discarded + i);
    }

    /** The source identifier, extended sequence number and payload type part of rtp_parse. */
    method UpdateFromHeader(p: Packet)
      requires Valid()
      modifies this, jittctl
      ensures Valid() && View() == HeaderSpec(cfg, old(View()), p)
    {
      if ssrc != 0 {
        if ssrc != p.ssrc { ssrc := p.ssrc; }
      } else {
        ssrc := p.ssrc;
      }
      extSeq := LossAccounting.NextExtSeq(extSeq, p.seqno);
      if hwPt != p.paytype {
        UpdatePayloadType(p.paytype);
      }
    }

    /** What rtp_recv does with one datagram. */
    method Datagram(p: Packet, userTs: u32)
      requires Valid()
      modifies this, rq, rq.blocks, jittctl
      ensures Valid()
      ensures fresh(rq.blocks - old(rq.blocks))
      ensures View() == DatagramSpec(cfg, old(View()), p, userTs)
    {
      if p.size < FIXED_HEADER {
        stats := stats.(bad := stats.bad + 1);
      } else {
        var mp := new Mblk(p);
        RtpParse(mp, Wrap32(userTs + hwDiffTs));
      }
    }

    /** rtp_recv, reading the datagrams ps that wait on the socket. */
    method RtpRecv(ps: seq<Packet>, userTs: u32)
      requires Valid()
      modifies this, rq, rq.blocks, jittctl
      ensures Valid()
      ensures fresh(rq.blocks - old(rq.blocks))
      ensures View() == RecvSpec(cfg, old(View()), ps, userTs)
    {
      var i := 0;
      while i < |ps|
        invariant 0 <= i <= |ps| && Valid()
        invariant fresh(rq.blocks - old(rq.blocks))
        invariant View() == RecvSpec(cfg, old(View()), ps[..i], userTs)
      {
        assert ps[..i + 1][..i] == ps[..i];
        Datagram(ps[i], userTs);
        i := i + 1;
      }
      assert ps[..i] == ps;
    }

    /** rtp_session_recvm_with_ts, outside scheduled mode. */
    method RecvmWithTs(ps: seq<Packet>, userTs: u32) returns (mp: Mblk?)
      requires Valid()
      modifies this, rq, rq.blocks, jittctl
      ensures Valid()
      ensures var (s, r) := RecvmSpec(cfg, old(View()), ps, userTs);
              View() == s && (if mp == null then r == None else r == Some(mp.pkt))
    {
      RtpRecv(ps, userTs);
      if sync { mp := SelectFirst(userTs); } else { mp := SelectByTime(userTs); }
      Deliver(mp);
    }

    /** The end of rtp_session_recvm_with_ts. */
    method Deliver(mp: Mblk?)
      requires Valid() && (mp != null ==> mp !in rq.blocks)
      modifies this, mp
      ensures Valid()
      ensures var (s, r) := DeliverSpec(old(View()), if mp == null then None else Some(old(mp.pkt)));
              View() == s && (if mp == null then r == None else r == Some(mp.pkt))
    {
      if mp != null {
        if recvPt != mp.pkt.paytype { recvPt := mp.pkt.paytype; }
        if jittctl.adaptive {
          mp.pkt := mp.pkt.(ts := Wrap32(mp.pkt.ts - jittctl.corrective));
        }
      } else {
        stats := stats.(unavailable := stats.unavailable + 1);
      }
    }

    /** The synchronising branch of rtp_session_recvm_with_ts. */
    method SelectFirst(userTs: u32) returns (mp: Mblk?)
      requires Valid() && sync
      modifies this, rq, rq.blocks
      ensures Valid()
      ensures mp != null ==> mp in old(rq.blocks) && mp !in rq.blocks && rq.blocks <= old(rq.blocks)
      ensures var (s, r) := SelectSpec(old(View()), userTs);
              View() == s && (if mp == null then r == None else r == Some(mp.pkt))
    {
      if rq.first.next == rq.last { return null; }
      assert rq.first.next == rq.chain[1] && rq.last.prev == rq.chain[|rq.chain| - 2];
      var oldest, newest := rq.first.next.pkt, rq.last.prev.pkt;
      if Wrap32(newest.ts - oldest.ts) < Wrap32(jittctl.compTs) { return null; }
      mp := rq.Getq();
      diffTs := Wrap32(mp.pkt.ts - userTs);
      hwDiffTs := Wrap32(diffTs + jittctl.compTs);
      lastTs := mp.pkt.ts;
      ssrc := mp.pkt.ssrc;
      sync := false;
    }

    /** The normal branch of rtp_session_recvm_with_ts. */
    method SelectByTime(userTs: u32) returns (mp: Mblk?)
      requires Valid() && !sync
      modifies this, rq, rq.blocks
      ensures Valid()
      ensures mp != null ==> mp in old(rq.blocks) && mp !in rq.blocks && rq.blocks <= old(rq.blocks)
      ensures var (s, r) := SelectSpec(old(View()), userTs);
              View() == s && (if mp == null then r == None else r == Some(mp.pkt))
    {
      ghost var v, q := View(), rq.packets;
      var ts := Wrap32(userTs + diffTs);
      lastTs := ts;
      var rejected;
      ghost var freed;
      mp, rejected, freed := rq.RtpGetq(ts);
      ghost var k := TakenCount(q, ts);
      TimeSelected(v, userTs, ts, k, rejected);
      stats := stats.(skipped := stats.skipped + rejected);
    }
  }

  function Fresh(pt: int, compTs: int, step: int, adaptive: bool): Rcv {
    Rcv([], true, 0, 0, 0, Zeroed(compTs, step, adaptive), pt, pt, 0, 0, 0, Stats(0, 0, 0, 0, 0, 0))
  }
}
