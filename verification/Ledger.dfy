/** The packet ledger of the receive path: over any run every received packet is
    in exactly one of the counters, delivered, a dropped duplicate, or queued. */
module Ledger {
  import opened Modular
  import opened RtpQueue
  import opened RtpReceive
  import opened InOrder

  /** Events the code does not count: datagrams too small to be parsed (they only
      enter the bad counter), duplicates freed by rtp_putq, packets handed out. */
  datatype Tally = Tally(undersized: nat, duplicates: nat, delivered: nat)

  predicate ReachesQueue(cfg: Config, s: Rcv, p: Packet) {
    p.size >= FIXED_HEADER && !IsBad(p) && (s.sync || !TooLate(p.ts, s.lastTs, cfg.tsJump)) && !IsEmpty(p)
  }

  function TallyDatagram(cfg: Config, s: Rcv, t: Tally, p: Packet): Tally {
    if p.size < FIXED_HEADER then t.(undersized := t.undersized + 1)
    else if ReachesQueue(cfg, s, p) && PutSpec(s.rq, p) == s.rq
    then t.(duplicates := t.duplicates + 1)
    else t
  }

  function TallyAll(cfg: Config, s: Rcv, t: Tally, ps: seq<Packet>, userTs: u32): Tally {
    if ps == [] then t
    else
      var rest := ps[..|ps| - 1];
      TallyDatagram(cfg, RecvSpec(cfg, s, rest, userTs), TallyAll(cfg, s, t, rest, userTs), ps[|ps| - 1])
  }

  function RunTally(cfg: Config, s: Rcv, calls: seq<(seq<Packet>, u32)>): (Rcv, Tally) {
    if calls == [] then (s, Tally(0, 0, 0))
    else
      var (s1, t) := RunTally(cfg, s, calls[..|calls| - 1]);
      var c := calls[|calls| - 1];
      var (s2, r) := RecvmSpec(cfg, s1, c.0, c.1);
      var t1 := TallyAll(cfg, s1, t, c.0, c.1);
      (s2, if r.Some? then t1.(delivered := t1.delivered + 1) else t1)
  }

  ghost predicate Balanced(cfg: Config, s: Rcv, t: Tally) {
    && s.stats.packetRecv + t.undersized
       == s.stats.bad + s.stats.outOfTime + s.stats.discarded + s.stats.skipped
          + t.delivered + t.duplicates + |s.rq|
    && |s.rq| <= cfg.maxRq
  }

  /** Headers and the jitter control leave counters and queue alone. */
  lemma HeaderKeeps(cfg: Config, s: Rcv, p: Packet, localTs: u32)
    ensures var s2 := HeaderSpec(cfg, s, p);
            && s2.stats == s.stats && s2.rq == s.rq && s2.sync == s.sync && s2.lastTs == s.lastTs
            && JitterSpec(s2, p, localTs).stats == s.stats && JitterSpec(s2, p, localTs).rq == s.rq
            && JitterSpec(s2, p, localTs).lastTs == s.lastTs
  {
  }

  /** A packet that is queued, with what it evicts, when it was just counted. */
  lemma EnqueueBalanced(cfg: Config, s0: Rcv, s: Rcv, t: Tally, p: Packet)
    requires Balanced(cfg, s0, t) && s.rq == s0.rq
    requires s.stats == s0.stats.(packetRecv := s0.stats.packetRecv + 1)
    ensures Balanced(cfg, EnqueueSpec(cfg, s, p),
                     if !IsEmpty(p) && PutSpec(s.rq, p) == s.rq then t.(duplicates := t.duplicates + 1) else t)
  {
    SplitLength(s.rq, cfg.maxRq, p);
  }

  lemma DatagramBalanced(cfg: Config, s: Rcv, t: Tally, p: Packet, userTs: u32)
    requires Balanced(cfg, s, t)
    ensures Balanced(cfg, DatagramSpec(cfg, s, p, userTs), TallyDatagram(cfg, s, t, p))
  {
    if p.size >= FIXED_HEADER && !IsBad(p) {
      AcceptedBalanced(cfg, s, t, p, Wrap32(userTs + s.hwDiffTs));
    }
  }

  lemma AcceptedBalanced(cfg: Config, s: Rcv, t: Tally, p: Packet, localTs: u32)
    requires Balanced(cfg, s, t) && p.size >= FIXED_HEADER && !IsBad(p)
    ensures Balanced(cfg, ParseSpec(cfg, s, p, localTs), TallyDatagram(cfg, s, t, p))
  {
    var s1 := CountReceived(s);
    HeaderKeeps(cfg, s1, p, localTs);
    var s2 := HeaderSpec(cfg, s1, p);
    if s2.sync {
      EnqueueBalanced(cfg, s, s2, t, p);
    } else if !TooLate(p.ts, s.lastTs, cfg.tsJump) {
      EnqueueBalanced(cfg, s, JitterSpec(s2, p, localTs), t, p);
    }
  }

  /** split_and_queue accounts for the packet and everything it evicts. */
  lemma {:induction false} SplitLength(q: seq<Packet>, max: nat, p: Packet)
    requires |q| <= max
    ensures |SplitSpec(q, max, p).0| <= max
    ensures |SplitSpec(q, max, p).0| + SplitSpec(q, max, p).1
            == |q| + (if !IsEmpty(p) && PutSpec(q, p) == q then 0 else 1)
  {
    var dropped, k := PutShape(q, p);
  }

  lemma {:induction false} ReceiveBalanced(cfg: Config, s: Rcv, t: Tally, ps: seq<Packet>, userTs: u32)
    requires Balanced(cfg, s, t)
    ensures Balanced(cfg, RecvSpec(cfg, s, ps, userTs), TallyAll(cfg, s, t, ps, userTs))
  {
    if ps != [] {
      var rest := ps[..|ps| - 1];
      ReceiveBalanced(cfg, s, t, rest, userTs);
      DatagramBalanced(cfg, RecvSpec(cfg, s, rest, userTs), TallyAll(cfg, s, t, rest, userTs), ps[|ps| - 1], userTs);
    }
  }

  /** After any run of any packets, in any mode, the ledger balances and the queue
      is within its limit. */
  lemma {:induction false} PacketLedger(cfg: Config, pt: int, compTs: int, step: int, adaptive: bool,
                                        calls: seq<(seq<Packet>, u32)>)
    ensures var (s, t) := RunTally(cfg, Fresh(pt, compTs, step, adaptive), calls);
            && Balanced(cfg, s, t)
            && s == RunRcv(cfg, Fresh(pt, compTs, step, adaptive), calls).0
            && t.delivered == |RunRcv(cfg, Fresh(pt, compTs, step, adaptive), calls).1|
            && t.delivered + s.stats.unavailable == |calls|
  {
    if calls != [] {
      PacketLedger(cfg, pt, compTs, step, adaptive, calls[..|calls| - 1]);
      var s0 := Fresh(pt, compTs, step, adaptive);
      var (s1, t) := RunTally(cfg, s0, calls[..|calls| - 1]);
      var c := calls[|calls| - 1];
      ReceiveBalanced(cfg, s1, t, c.0, c.1);
      ReceiveKeeps(cfg, s1, t, c.0, c.1);
      SelectBalanced(cfg, RecvSpec(cfg, s1, c.0, c.1), TallyAll(cfg, s1, t, c.0, c.1), c.1);
    }
  }

  lemma SelectBalanced(cfg: Config, s: Rcv, t: Tally, userTs: u32)
    requires Balanced(cfg, s, t)
    ensures var (s1, r) := SelectSpec(s, userTs);
            var (s2, r2) := DeliverSpec(s1, r);
            && Balanced(cfg, s2, if r2.Some? then t.(delivered := t.delivered + 1) else t)
            && s2.stats.unavailable == s.stats.unavailable + (if r2.Some? then 0 else 1)
  {
  }

  lemma {:induction false} ReceiveKeeps(cfg: Config, s: Rcv, t: Tally, ps: seq<Packet>, userTs: u32)
    ensures RecvSpec(cfg, s, ps, userTs).stats.unavailable == s.stats.unavailable
    ensures TallyAll(cfg, s, t, ps, userTs).delivered == t.delivered
  {
    if ps != [] { ReceiveKeeps(cfg, s, t, ps[..|ps| - 1], userTs); }
  }
}
