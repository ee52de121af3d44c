/** The jitter control of jitterctl.c, with its floats as reals. */
module Jitter {
  import opened Modular

  const BETA: real := 0.03

  /** The fields of JitterControl the algorithm reads and writes. */
  datatype Control = Control(
    compTs: int, adaptCompTs: int, slide: real, jitter: real, count: nat,
    oldDiff: int, interJitter: real, step: int, corrective: int, adaptive: bool)

  function AbsReal(x: real): real { if x < 0.0 then -x else x }

  function AbsInt(x: int): nat { if x < 0 then -x else x }

  /** Conversion of a float to an int: towards zero. */
  function Trunc(x: real): int { if x < 0.0 then -(-x).Floor else x.Floor }

  /** The difference of two timestamps stored into an int. */
  function TsDiff(packetTs: u32, curTs: u32): int { Signed32(Wrap32(packetTs - curTs)) }

  /** One corrective move towards the integer slide s. */
  function Correct(corrective: int, s: int, step: int): int {
    if s - corrective > step then corrective + step
    else if s - corrective < -step then corrective - step
    else corrective
  }

  /** State after one packet whose timestamp is diff ahead of the expected one. */
  function NewPacketSpec(c: Control, diff: int): Control {
    var slide := c.slide * (1.0 - BETA) + diff as real * BETA;
    var jitter := c.jitter * (1.0 - BETA) + AbsReal(diff as real - slide) * BETA;
    var inter := c.interJitter + (AbsInt(diff - c.oldDiff) as real - c.interJitter) / 16.0;
    var c1 := c.(count := c.count + 1, slide := slide, jitter := jitter, interJitter := inter, oldDiff := diff);
    if c.adaptive then
      c1.(corrective := Correct(c.corrective, Trunc(slide), c.step),
          adaptCompTs := if c.compTs as real > jitter then c.compTs else Trunc(jitter))
    else c1
  }

  /** The two values handed back to rtp_parse. */
  function SlideOut(c: Control): int { if c.adaptive then Trunc(c.slide) else 0 }

  function DelayOut(c: Control): int { if c.adaptive then c.adaptCompTs else c.compTs }

  /** The safe delay is never below the configured compensation, and outside
      adaptive mode both outputs are constants of the control. */
  lemma SafeDelay(c: Control, diff: int)
    ensures DelayOut(NewPacketSpec(c, diff)) >= c.compTs
    ensures !c.adaptive ==> SlideOut(NewPacketSpec(c, diff)) == 0 && DelayOut(NewPacketSpec(c, diff)) == c.compTs
  {
    var j := NewPacketSpec(c, diff).jitter;
    if c.adaptive && c.compTs as real <= j {
      assert j < 0.0 ==> (-j).Floor as real <= -j;
      assert Trunc(j) >= c.compTs;
    }
  }

  class JitterControl {
    var compTs: int
    var adaptCompTs: int
    var slide: real
    var jitter: real
    var count: nat
    var oldDiff: int
    var interJitter: real
    var step: int
    var corrective: int
    var adaptive: bool

    ghost function View(): Control
      reads this
    {
      Control(compTs, adaptCompTs, slide, jitter, count, oldDiff, interJitter, step, corrective, adaptive)
    }

    /** jitter_control_init on a zeroed control, then jitter_control_set_payload. */
    constructor (compTs: int, step: int, adaptive: bool)
      ensures View() == Zeroed(compTs, step, adaptive)
    {
      this.compTs, this.adaptCompTs, this.step, this.adaptive := compTs, compTs, step, adaptive;
      slide, jitter, interJitter := 0.0, 0.0, 0.0;
      count, oldDiff, corrective := 0, 0, 0;
    }

    /** jitter_control_new_packet */
    method NewPacket(packetTs: u32, curTs: u32) returns (slideOut: int, safeDelay: int)
      modifies this
      ensures View() == NewPacketSpec(old(View()), TsDiff(packetTs, curTs))
      ensures slideOut == SlideOut(View()) && safeDelay == DelayOut(View())
    {
      var diff := TsDiff(packetTs, curTs);
      count := count + 1;
      slide := slide * (1.0 - BETA) + diff as real * BETA;
      var gap := AbsReal(diff as real - slide);
      jitter := jitter * (1.0 - BETA) + gap * BETA;
      var d := diff - oldDiff;
      interJitter := interJitter + (AbsInt(d) as real - interJitter) / 16.0;
      oldDiff := diff;
      if adaptive {
        var tmp := Trunc(slide) - corrective;
        if tmp > step {
          corrective := corrective + step;
        } else if tmp < -step {
          corrective := corrective - step;
        }
        adaptCompTs := if compTs as real > jitter then compTs else Trunc(jitter);
        slideOut, safeDelay := Trunc(slide), adaptCompTs;
      } else {
        slideOut, safeDelay := 0, compTs;
      }
    }
  }

  function Zeroed(compTs: int, step: int, adaptive: bool): Control {
    Control(compTs, compTs, 0.0, 0.0, 0, 0, 0.0, step, 0, adaptive)
  }

  /** The control after a whole run of packets. */
  function Run(c: Control, diffs: seq<int>): Control {
    if diffs == [] then c else NewPacketSpec(Run(c, diffs[..|diffs| - 1]), diffs[|diffs| - 1])
  }

  ghost predicate Bounded(c: Control, d: int) {
    && -(d as real) <= c.slide <= d as real
    && 0.0 <= c.jitter <= (2 * d) as real
    && 0.0 <= c.interJitter <= (2 * d) as real
    && AbsInt(c.oldDiff) <= d
  }

  lemma StepBounded(c: Control, diff: int, d: nat)
    requires Bounded(c, d) && AbsInt(diff) <= d
    ensures Bounded(NewPacketSpec(c, diff), d)
  {
    var c1 := NewPacketSpec(c, diff);
    var dr := d as real;
    assert -dr <= diff as real <= dr;
    assert -dr <= c1.slide <= dr;
    assert AbsReal(diff as real - c1.slide) <= 2.0 * dr;
    assert AbsInt(diff - c.oldDiff) as real <= 2.0 * dr;
  }

  lemma TruncBounded(x: real, d: nat)
    requires -(d as real) <= x <= d as real
    ensures AbsInt(Trunc(x)) <= d
  {
  }

  /** Over every run from a zeroed control whose differences stay within d, the
      averages stay within d and 2d, and the corrective slide is always a
      multiple of the step. */
  lemma {:induction false} RunBounds(compTs: int, step: int, adaptive: bool, diffs: seq<int>, d: nat)
    requires forall i :: 0 <= i < |diffs| ==> AbsInt(diffs[i]) <= d
    ensures var c := Run(Zeroed(compTs, step, adaptive), diffs);
            Bounded(c, d) && c.step == step && IsMultiple(c.corrective, step)
  {
    if diffs != [] {
      var rest := diffs[..|diffs| - 1];
      RunBounds(compTs, step, adaptive, rest, d);
      var c := Run(Zeroed(compTs, step, adaptive), rest);
      StepBounded(c, diffs[|diffs| - 1], d);
      CorrectKeepsMultiple(c.corrective, Trunc(NewPacketSpec(c, diffs[|diffs| - 1]).slide), step);
    } else {
      assert Times(0, step) == 0;
    }
  }

  /** Unless the step is negative, the corrective slide stays within d as well. */
  lemma {:induction false} CorrectiveBounds(compTs: int, step: nat, adaptive: bool, diffs: seq<int>, d: nat)
    requires forall i :: 0 <= i < |diffs| ==> AbsInt(diffs[i]) <= d
    ensures AbsInt(Run(Zeroed(compTs, step, adaptive), diffs).corrective) <= d
  {
    if diffs != [] {
      var rest := diffs[..|diffs| - 1];
      CorrectiveBounds(compTs, step, adaptive, rest, d);
      RunBounds(compTs, step, adaptive, rest, d);
      RunBounds(compTs, step, adaptive, diffs, d);
      TruncBounded(Run(Zeroed(compTs, step, adaptive), diffs).slide, d);
    }
  }

  // ----- the averages of a whole run -----

  function Pow(x: real, n: nat): real { if n == 0 then 1.0 else x * Pow(x, n - 1) }

  /** The weight of a sample n samples old, times the sample. */
  function Share(w: real, n: nat, x: real): real { w * Pow(1.0 - w, n) * x }

  /** The sum of w * (1 - w)^(n - 1 - i) * xs[i]. */
  function Weighted(xs: seq<real>, w: real): real {
    if xs == [] then 0.0 else Share(w, |xs| - 1, xs[0]) + Weighted(xs[1..], w)
  }

  function Blend(average: real, x: real, w: real): real { average * (1.0 - w) + x * w }

  lemma {:induction false} OneMoreWeighted(xs: seq<real>, x: real, w: real)
    ensures Weighted(xs + [x], w) == Blend(Weighted(xs, w), x, w)
  {
    if xs == [] {
      NewestShare(w, x);
      assert (xs + [x])[1..] == [];
    } else {
      var n, k, tail := |xs|, |xs| - 1, xs[1..];
      OneMoreWeighted(tail, x, w);
      assert (xs + [x])[1..] == tail + [x];
      OlderShare(w, k, n, xs[0], Weighted(tail, w), x);
    }
  }

  lemma NewestShare(w: real, x: real)
    ensures Share(w, 0, x) == Blend(0.0, x, w)
  {
  }

  /** With one more sample each older one weighs 1 - w of what it did. */
  lemma OlderShare(w: real, k: nat, n: nat, first: real, rest: real, x: real)
    requires n == k + 1
    ensures Share(w, n, first) + Blend(rest, x, w) == Blend(Share(w, k, first) + rest, x, w)
  {
    var a, v, p := Share(w, k, first), 1.0 - w, Pow(1.0 - w, k);
    Distribute(w, v, p, first, rest);
    assert Pow(1.0 - w, n) == v * p;
  }

  lemma Distribute(w: real, v: real, p: real, first: real, rest: real)
    ensures w * (v * p) * first + rest * v == (w * p * first + rest) * v
  {
    assert w * (v * p) * first == w * p * first * v;
  }

  function Reals(diffs: seq<int>): (xs: seq<real>)
    ensures |xs| == |diffs| && forall i :: 0 <= i < |xs| ==> xs[i] == diffs[i] as real
  {
    if diffs == [] then [] else Reals(diffs[..|diffs| - 1]) + [diffs[|diffs| - 1] as real]
  }

  /** How far the last difference is from the average up to and with it. */
  function Deviation(diffs: seq<int>): real
    requires diffs != []
  {
    AbsReal(diffs[|diffs| - 1] as real - Weighted(Reals(diffs), 0.03))
  }

  function Deviations(diffs: seq<int>): seq<real> {
    if diffs == [] then [] else Deviations(diffs[..|diffs| - 1]) + [Deviation(diffs)]
  }

  /** How far the last difference is from the one before, the first from zero. */
  function Gap(diffs: seq<int>): real
    requires diffs != []
  {
    AbsInt(diffs[|diffs| - 1] - if |diffs| == 1 then 0 else diffs[|diffs| - 2]) as real
  }

  function Gaps(diffs: seq<int>): seq<real> {
    if diffs == [] then [] else Gaps(diffs[..|diffs| - 1]) + [Gap(diffs)]
  }

  /** Over every run from a zeroed control the slide is the average of the differences, the
      jitter that of their deviations, both with weight 0.03 for the newest, and the
      interarrival jitter that of the gaps with weight 1/16, as section 6.4.1 of RFC 3550
      has it. */
  lemma {:induction false} RunAverages(compTs: int, step: int, adaptive: bool, diffs: seq<int>)
    ensures var c := Run(Zeroed(compTs, step, adaptive), diffs);
            && c.slide == Weighted(Reals(diffs), 0.03)
            && c.jitter == Weighted(Deviations(diffs), 0.03)
            && c.interJitter == Weighted(Gaps(diffs), 0.0625)
            && c.oldDiff == (if diffs == [] then 0 else diffs[|diffs| - 1])
            && c.count == |diffs| && c.compTs == compTs && c.adaptive == adaptive
  {
    if diffs != [] {
      var rest, last := diffs[..|diffs| - 1], diffs[|diffs| - 1];
      RunAverages(compTs, step, adaptive, rest);
      OneMoreWeighted(Reals(rest), last as real, 0.03);
      OneMoreWeighted(Deviations(rest), Deviation(diffs), 0.03);
      OneMoreWeighted(Gaps(rest), Gap(diffs), 0.0625);
    }
  }

  lemma {:induction false} WeightedSign(xs: seq<real>)
    requires forall i :: 0 <= i < |xs| ==> xs[i] >= 0.0
    ensures Weighted(xs, 0.03) >= 0.0
  {
    if xs != [] {
      var rest, x := xs[..|xs| - 1], xs[|xs| - 1];
      WeightedSign(rest);
      assert xs == rest + [x];
      OneMoreWeighted(rest, x, 0.03);
    }
  }

  lemma {:induction false} DeviationsSign(diffs: seq<int>)
    ensures forall i :: 0 <= i < |Deviations(diffs)| ==> Deviations(diffs)[i] >= 0.0
  {
    if diffs != [] { DeviationsSign(diffs[..|diffs| - 1]); }
  }

  /** What rtp_parse is handed in adaptive mode after any run: the average difference, and
      the larger of the configured compensation and the average deviation, both cut to
      whole timestamps. */
  lemma AdaptiveOutputs(compTs: int, step: int, diffs: seq<int>)
    requires diffs != []
    ensures var c := Run(Zeroed(compTs, step, true), diffs);
            && SlideOut(c) == Trunc(Weighted(Reals(diffs), 0.03))
            && DelayOut(c) == Larger(compTs, Trunc(Weighted(Deviations(diffs), 0.03)))
  {
    RunAverages(compTs, step, true, diffs);
    RunAverages(compTs, step, true, diffs[..|diffs| - 1]);
    DeviationsSign(diffs);
    WeightedSign(Deviations(diffs));
  }

  function Larger(a: int, b: int): int { if a < b then b else a }

  function Times(k: int, step: int): int { k * step }

  ghost predicate IsMultiple(x: int, step: int) { exists k :: x == Times(k, step) }

  lemma CorrectKeepsMultiple(corrective: int, s: int, step: int)
    requires IsMultiple(corrective, step)
    ensures IsMultiple(Correct(corrective, s, step), step)
  {
    var k :| corrective == Times(k, step);
    assert Times(k + 1, step) == corrective + step && Times(k - 1, step) == corrective - step;
  }

  /** The corrective slide after n packets with the integer slide held at s. */
  function Corrected(corrective: int, s: int, step: int, n: nat): int {
    if n == 0 then corrective else Correct(Corrected(corrective, s, step, n - 1), s, step)
  }

  /** After each packet of the run the slide truncates to s. */
  ghost predicate HeldAt(c: Control, diffs: seq<int>, s: int) {
    diffs == [] || (HeldAt(c, diffs[..|diffs| - 1], s) && Trunc(Run(c, diffs).slide) == s)
  }

  lemma {:induction false} RunIsCorrected(c: Control, diffs: seq<int>, s: int)
    requires c.adaptive && HeldAt(c, diffs, s)
    ensures var r := Run(c, diffs);
            r.corrective == Corrected(c.corrective, s, c.step, |diffs|) && r.step == c.step && r.adaptive
  {
    if diffs != [] {
      RunIsCorrected(c, diffs[..|diffs| - 1], s);
    }
  }

  /** Over every run of packets that hold the slide at s, the corrective slide closes in
      on it by one step a packet, never passes it, and is within one step after
      distance / step packets. */
  lemma RunConverges(c: Control, diffs: seq<int>, s: int)
    requires c.adaptive && c.step > 0 && HeldAt(c, diffs, s)
    ensures var r, n := Run(c, diffs).corrective, |diffs|;
            && (c.corrective <= s ==> c.corrective <= r <= s)
            && (c.corrective >= s ==> s <= r <= c.corrective)
            && (AbsInt(s - r) <= c.step || AbsInt(s - r) == AbsInt(s - c.corrective) - n * c.step)
            && (n * c.step >= AbsInt(s - c.corrective) ==> AbsInt(s - r) <= c.step)
  {
    RunIsCorrected(c, diffs, s);
    Converges(c.corrective, s, c.step, |diffs|);
  }

  /** It closes in by one step a packet without passing s, and is within one
      step of s after distance / step packets, for good. */
  lemma {:induction false} Converges(corrective: int, s: int, step: int, n: nat)
    requires step > 0
    ensures var c := Corrected(corrective, s, step, n);
            && (corrective <= s ==> corrective <= c <= s)
            && (corrective >= s ==> s <= c <= corrective)
            && (AbsInt(s - c) <= step || AbsInt(s - c) == AbsInt(s - corrective) - n * step)
            && (n * step >= AbsInt(s - corrective) ==> AbsInt(s - c) <= step)
  {
    if n > 0 {
      Converges(corrective, s, step, n - 1);
      assert n * step == (n - 1) * step + step;
    }
  }
}
