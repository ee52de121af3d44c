/** What the statistics of a session say about the datagrams it was sent. */
module SessionStats {
  import opened Wrappers
  import opened Modular
  import opened RtpQueue
  import opened Jitter
  import opened RtpReceive
  import opened InOrder
  import LossAccounting

  /** Version 2, and large enough for its fixed header and its contributing sources. */
  predicate Parsable(p: Packet) { 12 <= p.size && p.version == 2 && 4 * p.cc <= Wrap32(p.size - 12) }

  function One(b: bool): nat { if b then 1 else 0 }

  /** The sequence numbers of the datagrams that can be parsed. */
  function Seqnos(ps: seq<Packet>): seq<u16> {
    if ps == [] then []
    else
      var p := ps[|ps| - 1];
      Seqnos(ps[..|ps| - 1]) + if Parsable(p) then [p.seqno] else []
  }

  /** How many datagrams have at least the size of a fixed header. */
  function Sized(ps: seq<Packet>): nat {
    if ps == [] then 0 else Sized(ps[..|ps| - 1]) + One(12 <= ps[|ps| - 1].size)
  }

  function Unparsable(ps: seq<Packet>): nat {
    if ps == [] then 0 else Unparsable(ps[..|ps| - 1]) + One(!Parsable(ps[|ps| - 1]))
  }

  /** A packet the lateness filter takes: not after the last query, and not so far before
      it that it counts as a jump ahead. */
  predicate Late(s: Rcv, p: Packet, tsJump: u32) {
    !s.sync && Wrap32(s.lastTs - p.ts) < H32 && Wrap32(p.ts - Wrap32(s.lastTs + tsJump)) >= H32
  }

  /** What a datagram does to a session apart from its queue and its jitter control. */
  lemma DatagramHeader(cfg: Config, s: Rcv, p: Packet, userTs: u32)
    ensures var t, ok := DatagramSpec(cfg, s, p, userTs), Parsable(p);
            && t.extSeq == (if ok then LossAccounting.NextExtSeq(s.extSeq, p.seqno) else s.extSeq)
            && t.sinceSr == (if 12 <= p.size then Wrap32(s.sinceSr + 1) else s.sinceSr)
            && t.ssrc == (if ok then p.ssrc else s.ssrc) && t.hwPt == (if ok then p.paytype else s.hwPt)
            && t.sync == s.sync && t.lastTs == s.lastTs && t.hwDiffTs == s.hwDiffTs && t.recvPt == s.recvPt
  {
  }

  /** And to its counters, apart from the discarded packets. */
  lemma DatagramCounts(cfg: Config, s: Rcv, p: Packet, userTs: u32)
    ensures var t, ok := DatagramSpec(cfg, s, p, userTs).stats, Parsable(p);
            && t.packetRecv == s.stats.packetRecv + One(12 <= p.size)
            && t.bad == s.stats.bad + One(!ok)
            && t.outOfTime == s.stats.outOfTime + One(ok && Late(s, p, cfg.tsJump))
            && t.skipped == s.stats.skipped && t.unavailable == s.stats.unavailable
  {
    if 12 <= p.size && !IsBad(p) {
      if s.sync { FirstCounts(cfg, s, p, userTs); } else { LaterCounts(cfg, s, p, userTs); }
    }
  }

  lemma QueueCounts(cfg: Config, s: Rcv, p: Packet)
    ensures var t := EnqueueSpec(cfg, s, p).stats; t == s.stats.(discarded := t.discarded)
  {
  }

  lemma FirstCounts(cfg: Config, s: Rcv, p: Packet, userTs: u32)
    requires 12 <= p.size && !IsBad(p) && s.sync
    ensures var t := DatagramSpec(cfg, s, p, userTs).stats;
            t == s.stats.(packetRecv := s.stats.packetRecv + 1, discarded := t.discarded)
  {
    var s2 := HeaderSpec(cfg, CountReceived(s), p);
    assert DatagramSpec(cfg, s, p, userTs) == EnqueueSpec(cfg, s2, p);
    QueueCounts(cfg, s2, p);
  }

  lemma LaterCounts(cfg: Config, s: Rcv, p: Packet, userTs: u32)
    requires 12 <= p.size && !IsBad(p) && !s.sync
    ensures var t := DatagramSpec(cfg, s, p, userTs).stats;
            t == s.stats.(packetRecv := s.stats.packetRecv + 1, discarded := t.discarded,
                          outOfTime := s.stats.outOfTime + One(TooLate(p.ts, s.lastTs, cfg.tsJump)))
  {
    var s3 := JitterSpec(HeaderSpec(cfg, CountReceived(s), p), p, Wrap32(userTs + s.hwDiffTs));
    assert DatagramSpec(cfg, s, p, userTs) == FilterSpec(cfg, s3, p);
    assert s3.stats == CountReceived(s).stats && s3.lastTs == s.lastTs;
    QueueCounts(cfg, s3, p);
  }

  /** Over everything taken in before a query: the extended number follows the parsable
      datagrams, the count since the last report all that have a header. */
  lemma {:induction false} ReceiveCounts(cfg: Config, s: Rcv, ps: seq<Packet>, userTs: u32)
    ensures var t := RecvSpec(cfg, s, ps, userTs);
            && t.extSeq == LossAccounting.ExtSeqAfter(s.extSeq, Seqnos(ps))
            && t.sinceSr == Wrap32(s.sinceSr + Sized(ps))
            && t.stats.packetRecv == s.stats.packetRecv + Sized(ps)
            && t.stats.bad == s.stats.bad + Unparsable(ps)
  {
    if ps != [] {
      var rest, p := ps[..|ps| - 1], ps[|ps| - 1];
      ReceiveCounts(cfg, s, rest, userTs);
      DatagramHeader(cfg, RecvSpec(cfg, s, rest, userTs), p, userTs);
      DatagramCounts(cfg, RecvSpec(cfg, s, rest, userTs), p, userTs);
      Wrap32Sum(s.sinceSr + Sized(rest), 1);
      if Parsable(p) { OneMore(s.extSeq, Seqnos(rest), p.seqno); } else { assert Seqnos(ps) == Seqnos(rest); }
    } else {
      Wrap32Unique(s.sinceSr, 0, s.sinceSr);
    }
  }

  lemma OneMore(ext: u32, arrivals: seq<u16>, seqno: u16)
    ensures LossAccounting.ExtSeqAfter(ext, arrivals + [seqno])
            == LossAccounting.NextExtSeq(LossAccounting.ExtSeqAfter(ext, arrivals), seqno)
  {
    assert (arrivals + [seqno])[..|arrivals|] == arrivals;
  }

  lemma {:induction false} ExtSeqJoins(ext: u32, a: seq<u16>, b: seq<u16>)
    ensures LossAccounting.ExtSeqAfter(ext, a + b)
            == LossAccounting.ExtSeqAfter(LossAccounting.ExtSeqAfter(ext, a), b)
  {
    if b == [] {
      assert a + b == a;
    } else {
      var rest := b[..|b| - 1];
      ExtSeqJoins(ext, a, rest);
      assert a + b == (a + rest) + [b[|b| - 1]];
      OneMore(ext, a + rest, b[|b| - 1]);
    }
  }

  // ----- whole runs -----

  /** All datagrams of a run, in the order they came in. */
  function Datagrams(calls: seq<(seq<Packet>, u32)>): seq<Packet> {
    if calls == [] then [] else Datagrams(calls[..|calls| - 1]) + calls[|calls| - 1].0
  }

  lemma {:induction false} SeqnosJoin(a: seq<Packet>, b: seq<Packet>)
    ensures Seqnos(a + b) == Seqnos(a) + Seqnos(b) && Sized(a + b) == Sized(a) + Sized(b)
  {
    if b == [] {
      assert a + b == a;
    } else {
      SeqnosJoin(a, b[..|b| - 1]);
      assert (a + b)[..|a + b| - 1] == a + b[..|b| - 1];
    }
  }

  lemma CallCounts(cfg: Config, s: Rcv, ps: seq<Packet>, userTs: u32)
    ensures var t := RecvmSpec(cfg, s, ps, userTs).0;
            && t.extSeq == LossAccounting.ExtSeqAfter(s.extSeq, Seqnos(ps))
            && t.sinceSr == Wrap32(s.sinceSr + Sized(ps))
  {
    ReceiveCounts(cfg, s, ps, userTs);
    SelectionKeeps(RecvSpec(cfg, s, ps, userTs), userTs);
  }

  lemma SelectionKeeps(s: Rcv, userTs: u32)
    ensures var t := DeliverSpec(SelectSpec(s, userTs).0, SelectSpec(s, userTs).1).0;
            t.extSeq == s.extSeq && t.sinceSr == s.sinceSr
  {
  }

  /** The two counts of a session after these datagrams. */
  ghost predicate Heard(s: Rcv, t: Rcv, ps: seq<Packet>) {
    && t.extSeq == LossAccounting.ExtSeqAfter(s.extSeq, Seqnos(ps))
    && t.sinceSr == Wrap32(s.sinceSr + Sized(ps))
  }

  lemma HeardMore(s: Rcv, t: Rcv, u: Rcv, a: seq<Packet>, b: seq<Packet>)
    requires Heard(s, t, a) && Heard(t, u, b)
    ensures Heard(s, u, a + b)
  {
    SeqnosJoin(a, b);
    ExtSeqJoins(s.extSeq, Seqnos(a), Seqnos(b));
    CountAdds(s.sinceSr, Sized(a), Sized(b), Sized(a + b));
  }

  lemma CountAdds(c: u32, x: nat, y: nat, n: nat)
    requires n == x + y
    ensures Wrap32(Wrap32(c + x) + y) == Wrap32(c + n)
  {
    Wrap32Sum(c + x, y);
    Wrap32Unique(y, y / M32, y % M32);
    Wrap32Sum(Wrap32(c + x), y);
  }

  /** The session after a run. */
  function Outcome(cfg: Config, s: Rcv, calls: seq<(seq<Packet>, u32)>): Rcv { RunRcv(cfg, s, calls).0 }

  lemma LastCall(cfg: Config, s: Rcv, calls: seq<(seq<Packet>, u32)>)
    requires calls != []
    ensures var s1, c := Outcome(cfg, s, calls[..|calls| - 1]), calls[|calls| - 1];
            Outcome(cfg, s, calls) == RecvmSpec(cfg, s1, c.0, c.1).0
  {
  }

  /** Over every run the session's extended number is that of the sequence numbers of all
      parsable datagrams, and its count of packets that of all datagrams with a
      header, mod 2^32. */
  lemma {:induction false} RunCounts(cfg: Config, s: Rcv, calls: seq<(seq<Packet>, u32)>)
    ensures Heard(s, Outcome(cfg, s, calls), Datagrams(calls))
  {
    if calls != [] {
      var rest, c := calls[..|calls| - 1], calls[|calls| - 1];
      RunCounts(cfg, s, rest);
      LastCall(cfg, s, calls);
      CallCounts(cfg, Outcome(cfg, s, rest), c.0, c.1);
      HeardMore(s, Outcome(cfg, s, rest), Outcome(cfg, s, calls), Datagrams(rest), c.0);
    } else {
      NothingHeard(s);
    }
  }

  lemma NothingHeard(s: Rcv)
    ensures Heard(s, s, [])
  {
    Wrap32Unique(s.sinceSr, 0, s.sinceSr);
  }

  /** All numbers of a run of a sender, in the order they came in. */
  function Numbers(calls: seq<Call>): seq<int> {
    if calls == [] then [] else Numbers(calls[..|calls| - 1]) + calls[|calls| - 1].arrivals
  }

  lemma {:induction false} DatagramsOf(snd: Sender, calls: seq<Call>)
    ensures Datagrams(WireCalls(snd, calls)) == Wires(snd, Numbers(calls))
  {
    if calls != [] {
      DatagramsOf(snd, calls[..|calls| - 1]);
      assert WireCalls(snd, calls)[..|calls| - 1] == WireCalls(snd, calls[..|calls| - 1]);
    }
  }

  lemma {:induction false} SeqnosOf(snd: Sender, ns: seq<int>)
    requires forall i :: 0 <= i < |ns| ==> Parsable(Wire(snd, ns[i]))
    ensures Seqnos(Wires(snd, ns)) == LossAccounting.Wires(ns) && Sized(Wires(snd, ns)) == |ns|
  {
    if ns != [] {
      var rest := ns[..|ns| - 1];
      SeqnosOf(snd, rest);
      assert Wires(snd, ns)[..|ns| - 1] == Wires(snd, rest);
      assert Wires(snd, ns)[|ns| - 1] == Wire(snd, ns[|ns| - 1]);
      assert LossAccounting.Wires(ns) == LossAccounting.Wires(rest) + [Wrap16(ns[|ns| - 1])];
    }
  }

  /** A session that hears a stream in order, with gaps of at most 199, holds the true
      extended number of the last packet, whatever was asked for in between. */
  lemma SessionExtSeqExact(cfg: Config, snd: Sender, s: Rcv, calls: seq<Call>, ns: seq<int>, from: int)
    requires ns == Numbers(calls) && s.extSeq == Wrap32(from) && LossAccounting.SmallGaps(from, ns)
    requires forall i :: 0 <= i < |ns| ==> Parsable(Wire(snd, ns[i]))
    ensures var t := Outcome(cfg, s, WireCalls(snd, calls));
            t.extSeq == Wrap32(LossAccounting.Last(from, ns)) && t.sinceSr == Wrap32(s.sinceSr + |ns|)
  {
    RunHeard(cfg, snd, s, calls);
    NumbersHeard(snd, s, Outcome(cfg, s, WireCalls(snd, calls)), ns, from);
  }

  lemma RunHeard(cfg: Config, snd: Sender, s: Rcv, calls: seq<Call>)
    ensures Heard(s, Outcome(cfg, s, WireCalls(snd, calls)), Wires(snd, Numbers(calls)))
  {
    RunCounts(cfg, s, WireCalls(snd, calls));
    DatagramsOf(snd, calls);
  }

  lemma NumbersHeard(snd: Sender, s: Rcv, t: Rcv, ns: seq<int>, from: int)
    requires Heard(s, t, Wires(snd, ns)) && s.extSeq == Wrap32(from) && LossAccounting.SmallGaps(from, ns)
    requires forall i :: 0 <= i < |ns| ==> Parsable(Wire(snd, ns[i]))
    ensures t.extSeq == Wrap32(LossAccounting.Last(from, ns)) && t.sinceSr == Wrap32(s.sinceSr + |ns|)
  {
    SeqnosOf(snd, ns);
    LossAccounting.InOrderExact(from, ns);
  }

  /** A fresh session takes the number of the first packet as it is, and follows. */
  lemma FreshExtSeqExact(cfg: Config, snd: Sender, s: Rcv, calls: seq<Call>, ns: seq<int>)
    requires ns == Numbers(calls) && ns != [] && s.extSeq == 0 && 0 <= ns[0] < M16
    requires LossAccounting.SmallGaps(ns[0], ns[1..])
    requires forall i :: 0 <= i < |ns| ==> Parsable(Wire(snd, ns[i]))
    ensures Outcome(cfg, s, WireCalls(snd, calls)).extSeq == Wrap32(ns[|ns| - 1])
  {
    RunHeard(cfg, snd, s, calls);
    SeqnosOf(snd, ns);
    FirstOfStream(ns);
  }

  lemma FirstOfStream(ns: seq<int>)
    requires ns != [] && 0 <= ns[0] < M16 && LossAccounting.SmallGaps(ns[0], ns[1..])
    ensures LossAccounting.ExtSeqAfter(0, LossAccounting.Wires(ns)) == Wrap32(ns[|ns| - 1])
  {
    var ws, rest := LossAccounting.Wires(ns), ns[1..];
    FirstNumber(ns[0]);
    assert ws == [ws[0]] + LossAccounting.Wires(rest);
    ExtSeqJoins(0, [ws[0]], LossAccounting.Wires(rest));
    LossAccounting.InOrderExact(ns[0], rest);
  }

  lemma FirstNumber(n: int)
    requires 0 <= n < M16
    ensures LossAccounting.ExtSeqAfter(0, [Wrap16(n)]) == Wrap32(n)
  {
    Wrap16Unique(n, 0, n);
    Wrap32Unique(n, 0, n);
    OneMore(0, [], n);
    assert [] + [n] == [n];
  }

  // ----- the timestamps of adaptive mode -----

  /** The offset set for a packet, with the safe delay added and the slide taken off again,
      is the one fixed at synchronisation. */
  lemma OffsetMeans(s: Rcv, p: Packet, localTs: u32)
    ensures var t := JitterSpec(s, p, localTs);
            && Wrap32(t.diffTs + DelayOut(t.jc) - SlideOut(t.jc)) == s.hwDiffTs
            && t.jc == NewPacketSpec(s.jc, TsDiff(p.ts, localTs)) && t == s.(jc := t.jc, diffTs := t.diffTs)
  {
    var t := JitterSpec(s, p, localTs);
    var x := SlideOut(t.jc) - DelayOut(t.jc);
    Wrap32Sum(s.hwDiffTs + x, -x);
    Wrap32Unique(s.hwDiffTs, 0, s.hwDiffTs);
  }

  /** What is handed out is the packet selected; in adaptive mode its timestamp lacks the
      corrective slide, outside it nothing. */
  lemma DeliveredMeans(s: Rcv, p: Packet)
    ensures var (t, r) := DeliverSpec(s, Some(p));
            && r.Some? && r.value == p.(ts := r.value.ts)
            && Wrap32(r.value.ts + if s.jc.adaptive then s.jc.corrective else 0) == p.ts
            && t == s.(recvPt := p.paytype)
  {
    Wrap32Sum(p.ts - s.jc.corrective, s.jc.corrective);
    Wrap32Unique(p.ts, 0, p.ts);
  }

  lemma NothingMeans(s: Rcv)
    ensures DeliverSpec(s, None) == (s.(stats := s.stats.(unavailable := s.stats.unavailable + 1)), None)
  {
  }

  /** A known payload type brings its own compensation and step, an unknown one nothing. */
  lemma PayloadMeans(cfg: Config, s: Rcv, pt: nat)
    ensures var t := LoadPayload(cfg, s, pt);
            && t.hwPt == pt && t == s.(hwPt := pt, jc := t.jc)
            && t.jc == s.jc.(compTs := t.jc.compTs, adaptCompTs := t.jc.adaptCompTs, step := t.jc.step)
            && (pt in cfg.profile ==>
                  t.jc.compTs == t.jc.adaptCompTs == cfg.profile[pt].compTs && t.jc.step == cfg.profile[pt].step)
            && (pt !in cfg.profile ==> t.jc == s.jc)
  {
  }
}
