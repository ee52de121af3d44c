/** The extended sequence number kept by rtp_parse and the cumulative loss
    report_block_init derives from it (section 6.4.1 of RFC 3550). */
module LossAccounting {
  import opened Modular

  /** Update of hwrcv_extseq by one packet, half by half as poly32_t splits it. */
  function NextExtSeq(ext: u32, seqno: u16): u32 {
    var lo, hi := ext % M16, ext / M16;
    if seqno > lo then hi * M16 + seqno
    else if seqno < 200 && lo > M16 - 200 then (hi + 1) % M16 * M16 + seqno
    else ext
  }

  function ExtSeqAfter(ext: u32, arrivals: seq<u16>): u32 {
    if arrivals == [] then ext
    else NextExtSeq(ExtSeqAfter(ext, arrivals[..|arrivals| - 1]), arrivals[|arrivals| - 1])
  }

  /** One packet lowers the number in exactly one case: the cycle counter overflows. */
  lemma StepDecreasesIff(ext: u32, seqno: u16)
    ensures NextExtSeq(ext, seqno) < ext
            <==> ext / M16 == M16 - 1 && ext % M16 > M16 - 200 && seqno < 200
  {
  }

  /** For any arrival order, each prefix of the arrivals leaves a number at
      most that of the next, as long as the last cycle is not reached. */
  lemma {:induction false} NeverDecreases(ext: u32, arrivals: seq<u16>, i: nat)
    requires i <= |arrivals|
    requires forall k :: i <= k < |arrivals| ==> ExtSeqAfter(ext, arrivals[..k]) < M32 - M16
    ensures ExtSeqAfter(ext, arrivals[..i]) <= ExtSeqAfter(ext, arrivals)
  {
    if i == |arrivals| {
      assert arrivals[..i] == arrivals;
    } else {
      var rest := arrivals[..|arrivals| - 1];
      assert forall k :: i <= k < |rest| ==> rest[..k] == arrivals[..k];
      assert rest[..i] == arrivals[..i];
      NeverDecreases(ext, rest, i);
      StepDecreasesIff(ExtSeqAfter(ext, rest), arrivals[|arrivals| - 1]);
    }
  }

  /** The extended number follows a forward step of the sender from m to n. */
  ghost predicate Follows(m: int, n: int) { NextExtSeq(Wrap32(m), Wrap16(n)) == Wrap32(n) }

  lemma WrapHalves(m: int)
    ensures Wrap32(m) % M16 == Wrap16(m) && Wrap32(m) / M16 == Wrap16(m / M16)
  {
    var q, h := m / M32, Wrap16(m / M16);
    assert m == M16 * (m / M16) + Wrap16(m) && m / M16 == M16 * (m / M16 / M16) + h;
    Wrap32Unique(m, m / M16 / M16, M16 * h + Wrap16(m));
  }

  lemma StepFollows(m: int, n: int)
    requires 0 < n - m <= 199
    ensures Follows(m, n)
  {
    WrapHalves(m);
    WrapHalves(n);
    if Wrap16(m) + (n - m) < M16 {
      Wrap16Unique(n, m / M16, Wrap16(m) + (n - m));
      assert n / M16 == m / M16;
    } else {
      Wrap16Unique(n, m / M16 + 1, Wrap16(m) + (n - m) - M16);
      assert n / M16 == m / M16 + 1;
      CycleUp(m / M16);
    }
  }

  lemma CycleUp(c: int)
    ensures Wrap16(c + 1) == (Wrap16(c) + 1) % M16
  {
    if Wrap16(c) == M16 - 1 { Wrap16Unique(c + 1, c / M16 + 1, 0); }
    else { Wrap16Unique(c + 1, c / M16, Wrap16(c) + 1); }
  }

  /** Every forward gap up to g is followed exactly when g is at most 199. */
  lemma GapBoundIsTight(g: nat)
    ensures (forall m, n :: 0 < n - m <= g ==> Follows(m, n)) <==> g <= 199
  {
    if g <= 199 {
      forall m, n | 0 < n - m <= g ensures Follows(m, n) { StepFollows(m, n); }
    } else {
      assert !Follows(65336, 65536);
    }
  }

  function Last(from: int, ns: seq<int>): int { if ns == [] then from else ns[|ns| - 1] }

  /** An in-order stream: numbers grow by 1 to 199 at each packet. */
  ghost predicate SmallGaps(from: int, ns: seq<int>) {
    ns == [] || (var rest := ns[..|ns| - 1];
                 SmallGaps(from, rest) && 0 < ns[|ns| - 1] - Last(from, rest) <= 199)
  }

  function Wires(ns: seq<int>): (ws: seq<u16>)
    ensures |ws| == |ns| && forall i :: 0 <= i < |ns| ==> ws[i] == Wrap16(ns[i])
  {
    seq(|ns|, i requires 0 <= i < |ns| => Wrap16(ns[i]))
  }

  /** Over a whole in-order run the 32-bit number is the true extended number. */
  lemma {:induction false} InOrderExact(from: int, ns: seq<int>)
    requires SmallGaps(from, ns)
    ensures ExtSeqAfter(Wrap32(from), Wires(ns)) == Wrap32(Last(from, ns))
  {
    if ns != [] {
      var rest := ns[..|ns| - 1];
      InOrderExact(from, rest);
      assert Wires(ns)[..|ns| - 1] == Wires(rest);
      StepFollows(Last(from, rest), ns[|ns| - 1]);
    }
  }

  /** The counters the report reads: hwrcv_extseq, hwrcv_seq_at_last_SR,
      hwrcv_since_last_SR and stats.cum_packet_loss. */
  datatype Counters = Counters(ext: u32, atLastSr: u32, sinceSr: u32, cumLoss: nat)

  function Arrive(c: Counters, seqno: u16): Counters {
    c.(ext := NextExtSeq(c.ext, seqno), sinceSr := Wrap32(c.sinceSr + 1))
  }

  function ArriveAll(c: Counters, arrivals: seq<u16>): Counters {
    if arrivals == [] then c else Arrive(ArriveAll(c, arrivals[..|arrivals| - 1]), arrivals[|arrivals| - 1])
  }

  /** report_block_init's loss for the interval: unsigned 32-bit arithmetic. */
  function IntervalLoss(c: Counters): u32 { Wrap32(c.ext - c.atLastSr - c.sinceSr) }

  function Report(c: Counters): Counters {
    c.(cumLoss := c.cumLoss + (if c.atLastSr != 0 then IntervalLoss(c) else 0), sinceSr := 0, atLastSr := c.ext)
  }

  /** The interval loss is the numbers passed minus the packets received exactly
      when no more were received than passed; otherwise (duplicates) it comes
      out 2^32 too large and is added like that. */
  lemma IntervalLossIff(c: Counters, m: int, n: int)
    requires c.atLastSr == Wrap32(m) && c.ext == Wrap32(n) && 0 <= n - m < M32
    ensures IntervalLoss(c) == n - m - c.sinceSr <==> c.sinceSr <= n - m
    ensures c.sinceSr > n - m ==> IntervalLoss(c) == n - m - c.sinceSr + M32
  {
    var d := n - m - c.sinceSr;
    if d >= 0 { Wrap32Unique(c.ext - c.atLastSr - c.sinceSr, m / M32 - n / M32, d); }
    else { Wrap32Unique(c.ext - c.atLastSr - c.sinceSr, m / M32 - n / M32 - 1, d + M32); }
  }

  /** The sequence numbers an in-order stream jumps over. */
  function Skipped(from: int, ns: seq<int>): int {
    if ns == [] then 0
    else Skipped(from, ns[..|ns| - 1]) + (ns[|ns| - 1] - Last(from, ns[..|ns| - 1]) - 1)
  }

  lemma {:induction false} SkippedTotal(from: int, ns: seq<int>)
    requires SmallGaps(from, ns)
    ensures Skipped(from, ns) == Last(from, ns) - from - |ns|
    ensures |ns| <= Last(from, ns) - from <= 199 * |ns|
  {
    if ns != [] { SkippedTotal(from, ns[..|ns| - 1]); }
  }

  lemma {:induction false} ArriveAllCounters(c: Counters, from: int, ns: seq<int>)
    requires SmallGaps(from, ns) && c.ext == Wrap32(from) && c.sinceSr + |ns| < M32
    ensures ArriveAll(c, Wires(ns)) == c.(ext := Wrap32(Last(from, ns)), sinceSr := c.sinceSr + |ns|)
  {
    if ns != [] {
      var rest := ns[..|ns| - 1];
      ArriveAllCounters(c, from, rest);
      assert Wires(ns)[..|ns| - 1] == Wires(rest);
      assert Wrap32(c.sinceSr + |rest| + 1) == c.sinceSr + |ns|;
      StepFollows(Last(from, rest), ns[|ns| - 1]);
    }
  }

  /** Intervals of arrivals, each closed by a report. */
  function RunReports(c: Counters, blocks: seq<seq<int>>): Counters {
    if blocks == [] then c
    else Report(ArriveAll(RunReports(c, blocks[..|blocks| - 1]), Wires(blocks[|blocks| - 1])))
  }

  function LastOf(from: int, blocks: seq<seq<int>>): int {
    if blocks == [] then from
    else Last(LastOf(from, blocks[..|blocks| - 1]), blocks[|blocks| - 1])
  }

  function SkippedOf(from: int, blocks: seq<seq<int>>): int {
    if blocks == [] then 0
    else SkippedOf(from, blocks[..|blocks| - 1])
         + Skipped(LastOf(from, blocks[..|blocks| - 1]), blocks[|blocks| - 1])
  }

  /** In-order intervals, none of them closing on the extended number 0 mod 2^32
      (the code reads a zero baseline as "no report yet"). */
  ghost predicate InOrderBlocks(from: int, blocks: seq<seq<int>>) {
    blocks == [] || (var rest, ns := blocks[..|blocks| - 1], blocks[|blocks| - 1];
                     && InOrderBlocks(from, rest)
                     && SmallGaps(LastOf(from, rest), ns) && 199 * |ns| < M32
                     && Wrap32(LastOf(from, blocks)) != 0)
  }

  /** From a report with a non-zero baseline on, cum_packet_loss telescopes to
      exactly the sequence numbers skipped since. */
  lemma {:induction false} CumLossTelescopes(c: Counters, from: int, blocks: seq<seq<int>>)
    requires c.ext == c.atLastSr == Wrap32(from) != 0 && c.sinceSr == 0
    requires InOrderBlocks(from, blocks)
    ensures var r, n := RunReports(c, blocks), LastOf(from, blocks);
            && r.ext == r.atLastSr == Wrap32(n) != 0 && r.sinceSr == 0
            && r.cumLoss == c.cumLoss + SkippedOf(from, blocks)
  {
    if blocks != [] {
      var rest, ns := blocks[..|blocks| - 1], blocks[|blocks| - 1];
      CumLossTelescopes(c, from, rest);
      var r, m := RunReports(c, rest), LastOf(from, rest);
      ArriveAllCounters(r, m, ns);
      SkippedTotal(m, ns);
      IntervalLossIff(ArriveAll(r, Wires(ns)), m, Last(m, ns));
    }
  }

  // ----- any arrivals -----

  lemma {:induction false} ArriveAny(c: Counters, arrivals: seq<u16>)
    requires c.sinceSr + |arrivals| < M32
    ensures ArriveAll(c, arrivals) == c.(ext := ExtSeqAfter(c.ext, arrivals), sinceSr := c.sinceSr + |arrivals|)
  {
    if arrivals != [] {
      var rest := arrivals[..|arrivals| - 1];
      var since := c.sinceSr + |rest|;
      ArriveAny(c, rest);
      Wrap32Unique(since + 1, 0, since + 1);
    }
  }

  /** Before the last cycle, so that the extended number does not fall back to the first. */
  ghost predicate Tame(ext: u32, arrivals: seq<u16>) {
    |arrivals| < M32 && forall k :: 0 <= k < |arrivals| ==> ExtSeqAfter(ext, arrivals[..k]) < M32 - M16
  }

  ghost predicate TameBlocks(c: Counters, blocks: seq<seq<int>>) {
    blocks == [] || (var rest := blocks[..|blocks| - 1];
                     TameBlocks(c, rest) && Tame(RunReports(c, rest).ext, Wires(blocks[|blocks| - 1])))
  }

  function Received(blocks: seq<seq<int>>): nat {
    if blocks == [] then 0 else Received(blocks[..|blocks| - 1]) + |blocks[|blocks| - 1]|
  }

  /** The interval received more packets than the numbers it passed. */
  predicate Overfull(c: Counters, ns: seq<int>) { |ns| > ExtSeqAfter(c.ext, Wires(ns)) - c.ext }

  function Overfulls(c: Counters, blocks: seq<seq<int>>): nat {
    if blocks == [] then 0
    else
      var rest := blocks[..|blocks| - 1];
      Overfulls(c, rest) + if Overfull(RunReports(c, rest), blocks[|blocks| - 1]) then 1 else 0
  }

  lemma ReportOf(c: Counters)
    requires c.ext >= c.atLastSr != 0
    ensures var passed := c.ext - c.atLastSr;
            Report(c) == Counters(c.ext, c.ext, 0,
                                  c.cumLoss + passed - c.sinceSr + if c.sinceSr > passed then M32 else 0)
  {
    Wrap32Unique(c.ext, 0, c.ext);
    Wrap32Unique(c.atLastSr, 0, c.atLastSr);
    IntervalLossIff(c, c.atLastSr, c.ext);
  }

  lemma OneReport(c: Counters, ns: seq<int>)
    requires c.ext == c.atLastSr != 0 && c.sinceSr == 0 && Tame(c.ext, Wires(ns))
    ensures var r := Report(ArriveAll(c, Wires(ns)));
            && r.ext == r.atLastSr >= c.ext && r.sinceSr == 0
            && r.cumLoss == c.cumLoss + (r.ext - c.ext) - |ns| + if Overfull(c, ns) then M32 else 0
  {
    var ext := ExtSeqAfter(c.ext, Wires(ns));
    ArriveAny(c, Wires(ns));
    assert ext >= c.ext by {
      NeverDecreases(c.ext, Wires(ns), 0);
      assert Wires(ns)[..0] == [];
    }
    ReportOf(c.(ext := ext, sinceSr := |ns|));
  }

  /** Whatever arrives after a report with a non-zero baseline: the cumulative loss grows
      by the numbers passed minus the packets received, and by 2^32 more for each
      interval that received more than it passed. So it is right exactly if there is
      no such interval. */
  lemma {:induction false} CumLossIff(c: Counters, blocks: seq<seq<int>>)
    requires c.ext == c.atLastSr != 0 && c.sinceSr == 0 && TameBlocks(c, blocks)
    ensures var r := RunReports(c, blocks);
            && r.ext == r.atLastSr >= c.ext && r.sinceSr == 0
            && r.cumLoss == c.cumLoss + (r.ext - c.ext) - Received(blocks) + M32 * Overfulls(c, blocks)
            && (r.cumLoss == c.cumLoss + (r.ext - c.ext) - Received(blocks) <==> Overfulls(c, blocks) == 0)
  {
    if blocks != [] {
      var rest, ns := blocks[..|blocks| - 1], blocks[|blocks| - 1];
      CumLossIff(c, rest);
      OneReport(RunReports(c, rest), ns);
    }
  }

  /** One duplicate in an interval: the number passed is 0, one packet was
      received, and the unsigned difference adds 2^32 - 1 to the total. */
  lemma {:induction false} DuplicateInflatesLoss()
    ensures Report(Arrive(Counters(7, 7, 0, 0), 7)).cumLoss == M32 - 1
  {
    assert Arrive(Counters(7, 7, 0, 0), 7) == Counters(7, 7, 1, 0);
    Wrap32Unique(-1, -1, M32 - 1);
  }
}
