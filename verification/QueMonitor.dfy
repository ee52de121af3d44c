/** The ring of osa_que.c with its lock and two condition variables, as a state
    machine whose steps are the passes of threads through the locked loops. */
module QueMonitor {
  import opened OsaQue

  type Tid = int

  /** The monitor. A thread is asleep in pthread_cond_wait, woken but not yet
      through another pass, or free to start a call. offer is the value a blocked writer holds. */
  datatype Monitor = Monitor(
    len: nat, q: seq<int>,
    asleepRd: set<Tid>, wokenRd: set<Tid>, asleepWr: set<Tid>, wokenWr: set<Tid>, offer: map<Tid, int>,
    putLog: seq<int>, gotLog: seq<int>)

  /** A pass by thread t, its first or one after a wake-up, or a spurious wake-up.
      wake is the set of threads the signal of a successful pass releases. */
  datatype Step =
    | Put(t: Tid, v: int, block: bool, wake: set<Tid>)
    | Get(t: Tid, block: bool, wake: set<Tid>)
    | SpuriousRd(t: Tid)
    | SpuriousWr(t: Tid)

  /** pthread_cond_signal releases at least one sleeper, if there is any. */
  ghost predicate Signals(asleep: set<Tid>, wake: set<Tid>) {
    wake <= asleep && (asleep != {} ==> wake != {})
  }

  ghost predicate Enabled(m: Monitor, s: Step) {
    match s
    case Put(t, v, block, wake) =>
      && t !in m.asleepRd && t !in m.wokenRd && t !in m.asleepWr
      && (t in m.wokenWr ==> block && t in m.offer && v == m.offer[t])
      && (if Offer(m.len, m.q, v).0 then Signals(m.asleepRd, wake) else wake == {})
    case Get(t, block, wake) =>
      && t !in m.asleepRd && t !in m.asleepWr && t !in m.wokenWr
      && (t in m.wokenRd ==> block)
      && (if Take(m.q).0.Some? then Signals(m.asleepWr, wake) else wake == {})
    case SpuriousRd(t) => t in m.asleepRd
    case SpuriousWr(t) => t in m.asleepWr
  }

  ghost function Next(m: Monitor, s: Step): Monitor
    requires Enabled(m, s)
  {
    match s
    case Put(t, v, block, wake) =>
      var (ok, q) := Offer(m.len, m.q, v);
      var m1 := m.(wokenWr := m.wokenWr - {t});
      if ok then m1.(q := q, asleepRd := m.asleepRd - wake, wokenRd := m.wokenRd + wake, putLog := m.putLog + [v])
      else if block then m1.(asleepWr := m.asleepWr + {t}, offer := m.offer[t := v])
      else m1
    case Get(t, block, wake) =>
      var (r, q) := Take(m.q);
      var m1 := m.(wokenRd := m.wokenRd - {t});
      if r.Some? then
        m1.(q := q, asleepWr := m.asleepWr - wake, wokenWr := m.wokenWr + wake, gotLog := m.gotLog + [r.value])
      else if block then m1.(asleepRd := m.asleepRd + {t})
      else m1
    case SpuriousRd(t) => m.(asleepRd := m.asleepRd - {t}, wokenRd := m.wokenRd + {t})
    case SpuriousWr(t) => m.(asleepWr := m.asleepWr - {t}, wokenWr := m.wokenWr + {t})
  }

  /** One condition variable: sleepers only while no more units are available
      than threads were woken and have not run. */
  ghost predicate Covered(asleep: set<Tid>, woken: set<Tid>, units: int) {
    asleep !! woken && (asleep != {} ==> units <= |woken|)
  }

  lemma SignalCovers(asleep: set<Tid>, woken: set<Tid>, units: int, wake: set<Tid>)
    requires Covered(asleep, woken, units) && Signals(asleep, wake)
    ensures Covered(asleep - wake, woken + wake, units + 1)
  {
    assert |woken + wake| == |woken| + |wake|;
    if asleep != {} { assert |wake| >= 1; }
  }

  lemma RunCovers(asleep: set<Tid>, woken: set<Tid>, units: int, t: Tid)
    requires Covered(asleep, woken, units)
    ensures Covered(asleep, woken - {t}, units - 1)
  {
    assert |woken - {t}| >= |woken| - 1;
  }

  ghost predicate Inv(m: Monitor) {
    && |m.q| <= m.len
    && m.putLog == m.gotLog + m.q
    && Covered(m.asleepRd, m.wokenRd, |m.q|)
    && Covered(m.asleepWr, m.wokenWr, m.len - |m.q|)
  }

  lemma PutKeepsInv(m: Monitor, s: Step)
    requires Inv(m) && s.Put? && Enabled(m, s)
    ensures Inv(Next(m, s))
  {
    if |m.q| < m.len {
      SignalCovers(m.asleepRd, m.wokenRd, |m.q|, s.wake);
      RunCovers(m.asleepWr, m.wokenWr, m.len - |m.q|, s.t);
    }
  }

  lemma GetKeepsInv(m: Monitor, s: Step)
    requires Inv(m) && s.Get? && Enabled(m, s)
    ensures Inv(Next(m, s))
  {
    if |m.q| > 0 {
      assert m.gotLog + m.q == (m.gotLog + [m.q[0]]) + m.q[1..];
      SignalCovers(m.asleepWr, m.wokenWr, m.len - |m.q|, s.wake);
      RunCovers(m.asleepRd, m.wokenRd, |m.q|, s.t);
    }
  }

  lemma SpuriousKeepsInv(m: Monitor, s: Step)
    requires Inv(m) && (s.SpuriousRd? || s.SpuriousWr?) && Enabled(m, s)
    ensures Inv(Next(m, s))
  {
    if s.SpuriousRd? {
      SignalCovers(m.asleepRd, m.wokenRd, |m.q|, {s.t});
    } else {
      SignalCovers(m.asleepWr, m.wokenWr, m.len - |m.q|, {s.t});
    }
  }

  ghost function Start(len: nat): Monitor { Monitor(len, [], {}, {}, {}, {}, map[], [], []) }

  ghost predicate IsRun(m: Monitor, steps: seq<Step>)
    decreases |steps|
  {
    steps == [] || (Enabled(m, steps[0]) && IsRun(Next(m, steps[0]), steps[1..]))
  }

  ghost function After(m: Monitor, steps: seq<Step>): Monitor
    requires IsRun(m, steps)
    decreases |steps|
  {
    if steps == [] then m else After(Next(m, steps[0]), steps[1..])
  }

  /** Any number of readers and writers, any mix of blocking and polling calls,
      spurious wake-ups and multiple wake-ups included: the ring is a FIFO of
      bounded length, a sleeping reader means no more queued values than woken
      readers, and a sleeping writer no more free slots than woken writers. */
  lemma {:induction false} MonitorInvariant(m: Monitor, steps: seq<Step>)
    requires Inv(m) && IsRun(m, steps)
    ensures Inv(After(m, steps)) && After(m, steps).len == m.len
    decreases |steps|
  {
    if steps != [] {
      match steps[0] {
        case Put(_, _, _, _) => PutKeepsInv(m, steps[0]);
        case Get(_, _, _) => GetKeepsInv(m, steps[0]);
        case SpuriousRd(_) => SpuriousKeepsInv(m, steps[0]);
        case SpuriousWr(_) => SpuriousKeepsInv(m, steps[0]);
      }
      MonitorInvariant(Next(m, steps[0]), steps[1..]);
    }
  }

  /** No wake-up is lost: when nobody is left to run, readers sleep only on an
      empty ring, writers only on a full one, and never both. What was got is at
      all times a prefix of what was put. */
  lemma NoLostWakeUp(len: nat, steps: seq<Step>)
    requires IsRun(Start(len), steps)
    ensures var m := After(Start(len), steps);
            && m.putLog == m.gotLog + m.q && |m.q| <= len
            && (m.wokenRd == {} && m.asleepRd != {} ==> m.q == [])
            && (m.wokenWr == {} && m.asleepWr != {} ==> |m.q| == len)
            && (m.wokenRd == {} && m.wokenWr == {} && len > 0 ==> m.asleepRd == {} || m.asleepWr == {})
  {
    MonitorInvariant(Start(len), steps);
  }
}
