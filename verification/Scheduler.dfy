/** Wait points of rtpsession.c against the clock of scheduler.c: the word clock and
    deadlines wrap, and the clock is advanced without a lock. */
module Scheduler {
  import opened Wrappers
  import opened Modular

  /** What wait_point_check decides for the word clock t. */
  predicate Expired(wakeup: bool, time: u32, t: u32) { wakeup && TsIsNewer(t, time) }

  class WaitPoint {
    var time: u32
    var wakeup: bool

    constructor ()
      ensures !wakeup
    {
      time, wakeup := 0, false;
    }

    method WakeupAt(t: u32)
      modifies this
      ensures time == t && wakeup
    {
      time := t;
      wakeup := true;
    }

    method Check(t: u32) returns (ok: bool)
      modifies this
      ensures ok == Expired(old(wakeup), time, t) && time == old(time) && wakeup == (old(wakeup) && !ok)
    {
      ok := false;
      if wakeup {
        if TsIsNewer(t, time) {
          wakeup := false;
          ok := true;
        }
      }
    }
  }

  // ----- one wait point and the scheduler thread -----

  /** A deadline that an arming thread computed and has not stored yet. */
  datatype Arming = Arming(t: u32, deadline: int)

  datatype Fired = Fired(deadline: int, clock: int)

  /** word is sched->time_, time and wakeup are the wait point's fields. The others
      are labels: the clock and deadlines before wrapping, whether the scheduler has
      passed this session since it last advanced the clock, the thread that holds
      the wait point's lock, and what fired when. */
  datatype Sys = Sys(
    word: u32, time: u32, wakeup: bool,
    clock: int, passed: bool, holder: Option<Arming>, armed: Option<int>, log: seq<Fired>)

  datatype Step =
    | Read(t: u32)   // under the lock: compare the packet time with the clock
    | Store          // then arm the wait point and release the lock
    | Check          // rtp_session_process, under the lock
    | Advance        // the timer has run out, no lock

  predicate Enabled(s: Sys, st: Step) {
    match st
    case Read(_) => s.holder.None?
    case Store => s.holder.Some?
    case Check => s.holder.None? && !s.passed
    case Advance => s.passed
  }

  function Next(s: Sys, inc: int, st: Step): Sys
    requires Enabled(s, st)
  {
    match st
    case Read(t) =>
      if TsIsStrictlyNewer(t, s.word) then s.(holder := Some(Arming(t, s.clock + Wrap32(t - s.word)))) else s
    case Store =>
      s.(time := s.holder.value.t, wakeup := true, armed := Some(s.holder.value.deadline), holder := None)
    case Check =>
      if Expired(s.wakeup, s.time, s.word)
      then s.(passed := true, wakeup := false, armed := None,
              log := s.log + [Fired(if s.armed.Some? then s.armed.value else s.clock, s.clock)])
      else s.(passed := true)
    case Advance => s.(word := Wrap32(s.word + inc), clock := s.clock + inc, passed := false)
  }

  /** A deadline that is not overdue: less than one increment old, and not reached
      once the scheduler has looked at it. */
  predicate OnTime(s: Sys, inc: int, deadline: int) {
    (if s.passed then s.clock < deadline else s.clock - inc < deadline) && deadline < s.clock + H32
  }

  ghost predicate Inv(s: Sys, inc: int) {
    && s.word == Wrap32(s.clock)
    && (s.wakeup <==> s.armed.Some?)
    && (s.armed.Some? ==> s.time == Wrap32(s.armed.value) && OnTime(s, inc, s.armed.value))
    && (s.holder.Some? ==>
          s.holder.value.t == Wrap32(s.holder.value.deadline) && OnTime(s, inc, s.holder.value.deadline))
    && (forall k :: 0 <= k < |s.log| ==> 0 <= s.log[k].clock - s.log[k].deadline < inc)
  }

  /** The deadline a thread computes is the packet time, in front of the clock by
      less than half the range. */
  lemma DeadlineAhead(t: u32, clock: int)
    requires TsIsStrictlyNewer(t, Wrap32(clock))
    ensures var d := clock + Wrap32(t - Wrap32(clock)); Wrap32(d) == t && clock < d < clock + H32
  {
    var w := Wrap32(clock);
    var x := Wrap32(t - w);
    Wrap32Sum(clock, t - w);
    Wrap32Sum(clock, x);
    var q := clock / 0x1_0000_0000;
    Wrap32Unique(clock + (t - w), q, t);
    assert x != 0 by {
      if t >= w { Wrap32Unique(t - w, 0, t - w); } else { Wrap32Unique(t - w, -1, t - w + 0x1_0000_0000); }
    }
  }

  lemma StepKeepsInv(s: Sys, inc: int, st: Step)
    requires 0 <= inc <= H32 && Inv(s, inc) && Enabled(s, st)
    ensures Inv(Next(s, inc, st), inc)
  {
    match st
    case Read(t) => if TsIsStrictlyNewer(t, s.word) { DeadlineAhead(t, s.clock); }
    case Store =>
    case Check => CheckKeepsInv(s, inc);
    case Advance => AdvanceKeepsInv(s, inc);
  }

  lemma CheckKeepsInv(s: Sys, inc: int)
    requires 0 <= inc <= H32 && Inv(s, inc) && Enabled(s, Check)
    ensures Inv(Next(s, inc, Check), inc)
  {
    CheckExact(s, inc);
  }

  lemma AdvanceKeepsInv(s: Sys, inc: int)
    requires 0 <= inc <= H32 && Inv(s, inc) && Enabled(s, Advance)
    ensures Inv(Next(s, inc, Advance), inc)
  {
    Wrap32Sum(s.clock, inc);
  }

  /** A look at an armed wait point fires it exactly if its deadline has come. */
  lemma CheckExact(s: Sys, inc: int)
    requires 0 <= inc <= H32 && Inv(s, inc) && Enabled(s, Check)
    ensures Expired(s.wakeup, s.time, s.word) <==> s.armed.Some? && s.armed.value <= s.clock
  {
    if s.armed.Some? {
      TsOrder(s.clock, s.armed.value);
    }
  }

  /** An armed deadline only goes by firing when it has come, or by a later call of
      the same thread that arms the wait point again. */
  lemma ArmedUntilFired(s: Sys, inc: int, st: Step)
    requires 0 <= inc <= H32 && Inv(s, inc) && Enabled(s, st) && s.armed.Some?
    ensures var t := Next(s, inc, st);
            || t.armed == s.armed
            || (st.Store? && t.armed.Some?)
            || (st.Check? && t.armed.None? && s.armed.value <= s.clock
                && t.log == s.log + [Fired(s.armed.value, s.clock)])
  {
    if st.Check? {
      CheckExact(s, inc);
    }
  }

  predicate IsRun(s: Sys, inc: int, steps: seq<Step>)
    decreases |steps|
  {
    steps != [] ==> Enabled(s, steps[0]) && IsRun(Next(s, inc, steps[0]), inc, steps[1..])
  }

  function After(s: Sys, inc: int, steps: seq<Step>): Sys
    requires IsRun(s, inc, steps)
    decreases |steps|
  {
    if steps == [] then s else After(Next(s, inc, steps[0]), inc, steps[1..])
  }

  lemma {:induction false} RunKeepsInv(s: Sys, inc: int, steps: seq<Step>)
    requires 0 <= inc <= H32 && Inv(s, inc) && IsRun(s, inc, steps)
    ensures Inv(After(s, inc, steps), inc)
    decreases |steps|
  {
    if steps != [] {
      StepKeepsInv(s, inc, steps[0]);
      RunKeepsInv(Next(s, inc, steps[0]), inc, steps[1..]);
    }
  }

  function Start(clock: int): Sys { Sys(Wrap32(clock), 0, false, clock, false, None, None, []) }

  /** Nothing fired early, nothing fired an increment late, and what is armed is not
      overdue, and in the future once the scheduler has passed. */
  ghost predicate Punctual(s: Sys, inc: int) {
    && (forall k :: 0 <= k < |s.log| ==> s.log[k].deadline <= s.log[k].clock < s.log[k].deadline + inc)
    && (s.armed.Some? ==> s.clock < s.armed.value + inc && (s.passed ==> s.clock < s.armed.value))
  }

  /** From any clock, over any number of wraps and however arming falls between the
      scheduler's steps. */
  lemma NeverEarlyNeverMissed(clock: int, inc: int, steps: seq<Step>)
    requires 0 <= inc <= H32 && IsRun(Start(clock), inc, steps)
    ensures Punctual(After(Start(clock), inc, steps), inc)
  {
    RunKeepsInv(Start(clock), inc, steps);
  }

  /** Arm for the next millisecond, then let the scheduler pass twice. */
  const ONE_DEADLINE: seq<Step> := [Read(1), Store, Check, Advance, Check]

  lemma FirstStep(s: Sys, inc: int, st: Step, steps: seq<Step>)
    requires Enabled(s, st) && IsRun(Next(s, inc, st), inc, steps)
    ensures IsRun(s, inc, [st] + steps)
    ensures After(s, inc, [st] + steps) == After(Next(s, inc, st), inc, steps)
  {
    assert ([st] + steps)[1..] == steps;
  }

  /** With an increment above half the range the scheduler passes a deadline by and
      leaves it armed. */
  lemma DeadlineMissed(inc: int)
    requires H32 < inc < M32
    ensures IsRun(Start(0), inc, ONE_DEADLINE)
    ensures var s := After(Start(0), inc, ONE_DEADLINE); s.armed == Some(1) && s.passed && s.clock == inc && s.log == []
  {
    var s0 := Start(0);
    var s1 := Next(s0, inc, Read(1));
    var s2 := Next(s1, inc, Store);
    var s3 := Next(s2, inc, Check);
    var s4 := Next(s3, inc, Advance);
    FirstStep(s4, inc, Check, []);
    FirstStep(s3, inc, Advance, [Check]);
    FirstStep(s2, inc, Check, [Advance, Check]);
    FirstStep(s1, inc, Store, [Check, Advance, Check]);
    FirstStep(s0, inc, Read(1), [Store, Check, Advance, Check]);
    assert ONE_DEADLINE == [Read(1)] + [Store, Check, Advance, Check];
  }

  /** Every run is punctual exactly if the increment is at most 2^31. */
  lemma IncrementLimit(inc: u32)
    ensures (forall clock, steps :: IsRun(Start(clock), inc, steps) ==> Punctual(After(Start(clock), inc, steps), inc))
            <==> inc <= H32
  {
    if inc <= H32 {
      forall clock, steps | IsRun(Start(clock), inc, steps) ensures Punctual(After(Start(clock), inc, steps), inc) {
        NeverEarlyNeverMissed(clock, inc, steps);
      }
    } else {
      DeadlineMissed(inc);
      assert !Punctual(After(Start(0), inc, ONE_DEADLINE), inc);
    }
  }
}
