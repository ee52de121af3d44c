/** The sequencer task of osa_test.c driving its three worker tasks over their
    mailboxes, with the message loop of osa_tsk.c: every interleaving of the four
    tasks and of any number of clients sending any commands. */
module OsaSequencer {
  const READY: int := 0
  const RUN: int := 1
  const PAUSE: int := 2

  const CMD_INIT: int := 0
  const CMD_START: int := 1
  const CMD_STOP: int := 2
  const CMD_PAUSE: int := 3
  const CMD_RESUME: int := 4

  /** Address of the local variable delay of OSA_TEST_PSEQ_Start; the parameters of
      clients live on their stacks at addresses 0, 1, ... */
  const SEQ_DELAY: int := -1
  const NO_PRM: int := -2

  datatype Msg = Msg(cmd: int, prm: int, waitAck: bool)

  /** Where a worker is, between two lock operations or state changes. */
  datatype WorkerPc =
    | Wait        // in OSA_tskThrMain, waiting for a message
    | ReadDelay   // INIT received, its parameter not yet read
    | InitAck     // about to acknowledge INIT
    | WaitStart   // in OSA_tskWaitCmd
    | SetRun      // START taken, state still READY
    | Run         // in the run loop
    | PauseAck | PauseSet | ResumeAck | ResumeSet
    | StopAck | StopSet

  /** acks counts the acknowledgements of this worker in the sequencer's ACK queue. */
  datatype Worker = Worker(pc: WorkerPc, state: int, box: seq<Msg>, msg: Msg, delay: int, acks: nat)

  /** What the sequencer does next for the command it has received. */
  datatype SeqPc =
    | Dispatch
    | InitSend(i: nat) | InitWait(i: nat)
    | StartSend(i: nat)
    | StopSend(i: nat) | StopWait(i: nat)
    | CastSend(cmd: int, i: nat) | CastWait(cmd: int, left: set<nat>)
    | SetState(st: int)
    | Reply

  datatype Seq = Idle | Busy(cur: Msg, pc: SeqPc)

  /** frames holds the stack variables that are alive, by address; session is the
      delay of the last start; fault is raised by a failed assertion or by reading a
      variable that is not alive. */
  datatype Sys = Sys(
    sequencer: Seq, state: int, inbox: seq<Msg>, workers: seq<Worker>,
    frames: map<int, int>, next: nat, session: int, fault: bool)

  // ----- the worker's code -----

  function Acked(w: Worker): Worker {
    if w.msg.waitAck then w.(acks := w.acks + 1) else w
  }

  function Popped(w: Worker): Worker
    requires w.box != []
  {
    w.(msg := w.box[0], box := w.box[1..])
  }

  /** One step of a worker, and whether an assertion or a read failed. */
  function WorkerNext(w: Worker, frames: map<int, int>): (Worker, bool)
    requires WorkerEnabled(w)
  {
    match w.pc
    case Wait =>
      var w1 := Popped(w);
      if w.state != READY then (w1, true)
      else if w1.msg.cmd == CMD_INIT then (w1.(pc := ReadDelay), false)
      else (Acked(w1), false)
    case ReadDelay =>
      if w.msg.prm in frames then (w.(delay := frames[w.msg.prm], pc := InitAck), false) else (w, true)
    case InitAck => (Acked(w).(pc := WaitStart), false)
    case WaitStart =>
      var w1 := Popped(w);
      (if w1.msg.cmd == CMD_START then Acked(w1).(pc := SetRun) else Acked(w1), false)
    case SetRun => (w.(state := RUN, pc := Run), false)
    case Run =>
      var w1 := Popped(w);
      if w1.msg.cmd == CMD_STOP then (w1.(pc := StopAck), false)
      else if w1.msg.cmd == CMD_PAUSE then (w1.(pc := PauseAck), false)
      else if w1.msg.cmd == CMD_RESUME then (w1.(pc := ResumeAck), false)
      else (w1, true)
    case PauseAck => (Acked(w).(pc := PauseSet), false)
    case PauseSet => (w.(state := PAUSE, pc := Run), false)
    case ResumeAck => (Acked(w).(pc := ResumeSet), false)
    case ResumeSet => (w.(state := RUN, pc := Run), false)
    case StopAck => (Acked(w).(pc := StopSet), false)
    case StopSet => (w.(state := READY, pc := Wait), false)
  }

  /** A worker waits only for a message. */
  predicate WorkerEnabled(w: Worker) {
    w.pc in {Wait, WaitStart, Run} ==> w.box != []
  }

  // ----- the sequencer's code -----

  function Deliver(s: Sys, i: nat, m: Msg): Sys
    requires i < |s.workers|
  {
    s.(workers := s.workers[i := s.workers[i].(box := s.workers[i].box + [m])])
  }

  function TakeAck(s: Sys, i: nat): Sys
    requires i < |s.workers| && s.workers[i].acks > 0
  {
    s.(workers := s.workers[i := s.workers[i].(acks := s.workers[i].acks - 1)])
  }

  function At(s: Sys, pc: SeqPc): Sys
    requires s.sequencer.Busy?
  {
    s.(sequencer := s.sequencer.(pc := pc))
  }

  /** OSA_TEST_PSEQ_Main up to the first message it sends. */
  function DispatchSpec(s: Sys): Sys
    requires s.sequencer.Busy?
  {
    var cmd, prm := s.sequencer.cur.cmd, s.sequencer.cur.prm;
    if s.state == READY then
      if cmd == CMD_START then
        if prm in s.frames then
          At(s.(frames := s.frames[SEQ_DELAY := s.frames[prm]], session := s.frames[prm]), InitSend(0))
        else s.(fault := true)
      else At(s, Reply)
    else if s.state == RUN then
      if cmd == CMD_STOP then At(s, StopSend(2))
      else if cmd == CMD_PAUSE then At(s, CastSend(CMD_PAUSE, 0))
      else At(s, Reply)
    else if s.state == PAUSE then
      if cmd == CMD_STOP then At(s, StopSend(2))
      else if cmd == CMD_START || cmd == CMD_RESUME then At(s, CastSend(CMD_RESUME, 0))
      else At(s, Reply)
    else s.(fault := true)
  }

  function CastTarget(cmd: int): int { if cmd == CMD_PAUSE then PAUSE else RUN }

  predicate SeqEnabled(s: Sys) {
    |s.workers| == 3 && s.sequencer.Busy? &&
    match s.sequencer.pc
    case InitSend(i) => i < 3
    case InitWait(i) => i < 3 && s.workers[i].acks > 0
    case StartSend(i) => i < 3
    case StopSend(i) => i < 3
    case StopWait(i) => i < 3 && s.workers[i].acks > 0
    case CastSend(_, i) => i < 3
    case CastWait(_, left) => left == {}
    case _ => true
  }

  function SeqNext(s: Sys): Sys
    requires SeqEnabled(s)
  {
    match s.sequencer.pc
    case Dispatch => DispatchSpec(s)
    case InitSend(i) => At(Deliver(s, i, Msg(CMD_INIT, SEQ_DELAY, true)), InitWait(i))
    case InitWait(i) => At(TakeAck(s, i), if i < 2 then InitSend(i + 1) else StartSend(0))
    case StartSend(i) =>
      At(Deliver(s, i, Msg(CMD_START, NO_PRM, false)), if i < 2 then StartSend(i + 1) else SetState(RUN))
    case StopSend(i) => At(Deliver(s, i, Msg(CMD_STOP, NO_PRM, true)), StopWait(i))
    case StopWait(i) => At(TakeAck(s, i), if i > 0 then StopSend(i - 1) else SetState(READY))
    case CastSend(cmd, i) =>
      At(Deliver(s, i, Msg(cmd, NO_PRM, true)), if i < 2 then CastSend(cmd, i + 1) else CastWait(cmd, {0, 1, 2}))
    case CastWait(cmd, _) => At(s, SetState(CastTarget(cmd)))
    case SetState(st) => At(s.(state := st, frames := s.frames - {SEQ_DELAY}), Reply)
    case Reply => s.(sequencer := Idle, frames := s.frames - {s.sequencer.cur.prm})
  }

  /** Submit: a client sends a command with the address of a local and waits.
      SeqReceive, SeqStep: the sequencer takes its next command, and goes on with it.
      SeqCollect: it takes an acknowledgement of a broadcast, from any worker. */
  datatype Step =
    | Submit(cmd: int, delay: int)
    | SeqReceive
    | SeqStep
    | SeqCollect(w: nat)
    | WorkerStep(w: nat)

  predicate Enabled(s: Sys, st: Step) {
    match st
    case Submit(_, _) => true
    case SeqReceive => s.sequencer.Idle? && s.inbox != []
    case SeqStep => SeqEnabled(s)
    case SeqCollect(w) =>
      s.sequencer.Busy? && s.sequencer.pc.CastWait? && w in s.sequencer.pc.left
      && w < |s.workers| && s.workers[w].acks > 0
    case WorkerStep(w) => w < |s.workers| && WorkerEnabled(s.workers[w])
  }

  function Next(s: Sys, st: Step): Sys
    requires Enabled(s, st)
  {
    match st
    case Submit(cmd, delay) =>
      s.(frames := s.frames[s.next := delay], inbox := s.inbox + [Msg(cmd, s.next, true)], next := s.next + 1)
    case SeqReceive => s.(sequencer := Busy(s.inbox[0], Dispatch), inbox := s.inbox[1..])
    case SeqStep => SeqNext(s)
    case SeqCollect(w) =>
      At(TakeAck(s, w), CastWait(s.sequencer.pc.cmd, s.sequencer.pc.left - {w}))
    case WorkerStep(w) =>
      var (w1, bad) := WorkerNext(s.workers[w], s.frames);
      s.(workers := s.workers[w := w1], fault := s.fault || bad)
  }

  function StartWorker(): Worker { Worker(Wait, READY, [], Msg(CMD_INIT, NO_PRM, false), 0, 0) }

  function Start(): Sys {
    Sys(Idle, READY, [], [StartWorker(), StartWorker(), StartWorker()], map[], 0, 0, false)
  }

  // ----- the invariant -----

  /** What the sequencer has done with a worker so far: nothing; sent INIT; seen it
      acknowledged; started it, to be in the given state; sent it a further command. */
  datatype Phase = Off | Initing | Inited | On(st: int) | Told(cmd: int, st: int)

  /** Follows from the sequencer's position alone. */
  function PhaseOf(s: Sys, w: nat): Phase {
    var rest := if s.state == READY then Off else On(s.state);
    if s.sequencer.Idle? then rest
    else
      match s.sequencer.pc
      case Dispatch => rest
      case InitSend(i) => if w < i then Inited else Off
      case InitWait(i) => if w < i then Inited else if w == i then Initing else Off
      case StartSend(i) => if w < i then On(RUN) else Inited
      case StopSend(i) => if w > i then Off else On(s.state)
      case StopWait(i) => if w > i then Off else if w == i then Told(CMD_STOP, s.state) else On(s.state)
      case CastSend(cmd, i) => if w < i then Told(cmd, s.state) else On(s.state)
      case CastWait(cmd, left) => if w in left then Told(cmd, s.state) else On(CastTarget(cmd))
      case SetState(st) => if st == READY then Off else On(st)
      case Reply => rest
  }

  /** Stopped, or about to return from its main function to OSA_tskThrMain. */
  predicate IsOff(w: Worker, box: seq<Msg>) {
    w.box == box && ((w.pc == Wait && w.state == READY) || w.pc == StopSet)
  }

  /** Started, with START still ahead of everything else in its mailbox or taken. */
  predicate IsOn(w: Worker, st: int, rest: seq<Msg>) {
    || (st == RUN && w.pc == WaitStart && w.state == READY && w.box == [Msg(CMD_START, NO_PRM, false)] + rest)
    || (w.box == rest
        && ((st == RUN && w.pc == SetRun) || (st == RUN && w.pc == ResumeSet) || (st == PAUSE && w.pc == PauseSet)
            || (w.pc == Run && w.state == st)))
  }

  function AckPc(cmd: int): WorkerPc {
    if cmd == CMD_STOP then StopAck else if cmd == CMD_PAUSE then PauseAck else ResumeAck
  }

  predicate Fits(w: Worker, ph: Phase, session: int) {
    match ph
    case Off => IsOff(w, []) && w.acks == 0
    case Initing =>
      || (IsOff(w, [Msg(CMD_INIT, SEQ_DELAY, true)]) && w.acks == 0)
      || (w.box == [] && w.state == READY && w.acks == 0 && w.msg == Msg(CMD_INIT, SEQ_DELAY, true)
          && (w.pc == ReadDelay || (w.pc == InitAck && w.delay == session)))
      || (w.box == [] && w.state == READY && w.pc == WaitStart && w.acks == 1 && w.delay == session)
    case Inited => w.box == [] && w.state == READY && w.pc == WaitStart && w.acks == 0 && w.delay == session
    case On(st) => IsOn(w, st, []) && w.acks == 0 && w.delay == session
    case Told(cmd, st) =>
      && w.delay == session && cmd in {CMD_STOP, CMD_PAUSE, CMD_RESUME}
      && (|| (IsOn(w, st, [Msg(cmd, NO_PRM, true)]) && w.acks == 0)
          || (w.box == [] && w.pc == AckPc(cmd) && w.msg.waitAck && w.acks == 0)
          || (w.acks == 1 && if cmd == CMD_STOP then IsOff(w, []) else IsOn(w, CastTarget(cmd), [])))
  }

  /** The sequencer's local delay is alive from the start of a session until its
      state is set, with the value the workers are to read. */
  predicate SeqOk(s: Sys) {
    && |s.workers| == 3 && !s.fault && s.state in {READY, RUN, PAUSE}
    && (s.sequencer.Busy? ==>
          match s.sequencer.pc
          case InitSend(i) => i < 3 && s.state == READY && DelayAlive(s)
          case InitWait(i) => i < 3 && s.state == READY && DelayAlive(s)
          case StartSend(i) => i < 3 && s.state == READY && DelayAlive(s)
          case StopSend(i) => i < 3 && s.state != READY
          case StopWait(i) => i < 3 && s.state != READY
          case CastSend(cmd, i) => i < 3 && s.state != READY && cmd in {CMD_PAUSE, CMD_RESUME}
          case CastWait(cmd, left) => left <= {0, 1, 2} && s.state != READY && cmd in {CMD_PAUSE, CMD_RESUME}
          case SetState(st) => st in {READY, RUN, PAUSE}
          case _ => true)
  }

  predicate DelayAlive(s: Sys) { SEQ_DELAY in s.frames && s.frames[SEQ_DELAY] == s.session }

  /** The local of every client that still waits for its reply is alive. */
  ghost predicate ClientsOk(s: Sys) {
    && (forall k :: 0 <= k < |s.inbox| ==> 0 <= s.inbox[k].prm < s.next && s.inbox[k].prm in s.frames)
    && (forall j, k :: 0 <= j < k < |s.inbox| ==> s.inbox[j].prm != s.inbox[k].prm)
    && (s.sequencer.Busy? ==>
          && 0 <= s.sequencer.cur.prm < s.next && s.sequencer.cur.prm in s.frames
          && forall k :: 0 <= k < |s.inbox| ==> s.inbox[k].prm != s.sequencer.cur.prm)
  }

  ghost predicate Inv(s: Sys) {
    && SeqOk(s) && ClientsOk(s)
    && forall w :: 0 <= w < |s.workers| ==> Fits(s.workers[w], PhaseOf(s, w), s.session)
  }

  /** A worker's own step never fails and stays within its phase, whatever it is. */
  lemma WorkerKeepsPhase(w: Worker, ph: Phase, frames: map<int, int>, session: int)
    requires Fits(w, ph, session) && WorkerEnabled(w)
    requires ph == Initing ==> SEQ_DELAY in frames && frames[SEQ_DELAY] == session
    requires ph.On? || ph.Told? ==> ph.st == RUN || ph.st == PAUSE
    ensures var (w1, bad) := WorkerNext(w, frames); !bad && Fits(w1, ph, session)
  {
  }

  lemma WorkerStepKeepsInv(s: Sys, w: nat)
    requires Inv(s) && Enabled(s, WorkerStep(w))
    ensures Inv(Next(s, WorkerStep(w)))
  {
    WorkerKeepsPhase(s.workers[w], PhaseOf(s, w), s.frames, s.session);
    var t := Next(s, WorkerStep(w));
    forall x | 0 <= x < |t.workers| ensures Fits(t.workers[x], PhaseOf(t, x), t.session) {
      assert PhaseOf(t, x) == PhaseOf(s, x);
    }
  }

  lemma SeqStepKeepsInv(s: Sys)
    requires Inv(s) && Enabled(s, SeqStep)
    ensures Inv(Next(s, SeqStep))
  {
    var t := Next(s, SeqStep);
    SeqStepKeepsControl(s);
    forall x | 0 <= x < |t.workers| ensures Fits(t.workers[x], PhaseOf(t, x), t.session) {
      assert Fits(s.workers[x], PhaseOf(s, x), s.session);
      SeqStepKeepsWorker(s, x);
    }
  }

  lemma SeqStepKeepsControl(s: Sys)
    requires SeqOk(s) && ClientsOk(s) && Enabled(s, SeqStep)
    ensures SeqOk(Next(s, SeqStep)) && ClientsOk(Next(s, SeqStep))
  {
    if s.sequencer.pc.Dispatch? { DispatchKeepsControl(s); }
  }

  lemma DispatchKeepsControl(s: Sys)
    requires SeqOk(s) && ClientsOk(s) && Enabled(s, SeqStep) && s.sequencer.pc.Dispatch?
    ensures SeqOk(Next(s, SeqStep)) && ClientsOk(Next(s, SeqStep))
  {
  }

  /** A command sent, or an acknowledgement taken, moves a worker to its next phase. */
  lemma SeqStepKeepsWorker(s: Sys, x: nat)
    requires SeqOk(s) && ClientsOk(s) && Enabled(s, SeqStep) && x < 3
    requires Fits(s.workers[x], PhaseOf(s, x), s.session)
    ensures var t := Next(s, SeqStep);
            |t.workers| == 3 && Fits(t.workers[x], PhaseOf(t, x), t.session)
  {
    match s.sequencer.pc
    case Dispatch => DispatchKeepsWorker(s, x);
    case InitSend(_) => SendKeepsWorker(s, x);
    case StartSend(_) => SendKeepsWorker(s, x);
    case StopSend(_) => SendKeepsWorker(s, x);
    case CastSend(_, _) => SendKeepsWorker(s, x);
    case _ =>
  }

  lemma DispatchKeepsWorker(s: Sys, x: nat)
    requires SeqOk(s) && ClientsOk(s) && Enabled(s, SeqStep) && s.sequencer.pc.Dispatch? && x < 3
    requires Fits(s.workers[x], PhaseOf(s, x), s.session)
    ensures var t := Next(s, SeqStep); t.workers == s.workers && Fits(t.workers[x], PhaseOf(t, x), t.session)
  {
  }

  lemma SendKeepsWorker(s: Sys, x: nat)
    requires SeqOk(s) && Enabled(s, SeqStep) && x < 3
    requires var pc := s.sequencer.pc; pc.InitSend? || pc.StartSend? || pc.StopSend? || pc.CastSend?
    requires Fits(s.workers[x], PhaseOf(s, x), s.session)
    ensures var t := Next(s, SeqStep);
            |t.workers| == 3 && Fits(t.workers[x], PhaseOf(t, x), t.session)
  {
  }

  lemma SeqCollectKeepsInv(s: Sys, w: nat)
    requires Inv(s) && Enabled(s, SeqCollect(w))
    ensures Inv(Next(s, SeqCollect(w)))
  {
    var t := Next(s, SeqCollect(w));
    forall x | 0 <= x < |t.workers| ensures Fits(t.workers[x], PhaseOf(t, x), t.session) {
      assert Fits(s.workers[x], PhaseOf(s, x), s.session);
    }
  }

  lemma ClientKeepsInv(s: Sys, st: Step)
    requires Inv(s) && Enabled(s, st) && (st.Submit? || st.SeqReceive?)
    ensures Inv(Next(s, st))
  {
    var t := Next(s, st);
    forall x | 0 <= x < |t.workers| ensures Fits(t.workers[x], PhaseOf(t, x), t.session) {
      assert PhaseOf(t, x) == PhaseOf(s, x);
    }
  }

  lemma StepKeepsInv(s: Sys, st: Step)
    requires Inv(s) && Enabled(s, st)
    ensures Inv(Next(s, st))
  {
    match st
    case Submit(_, _) => ClientKeepsInv(s, st);
    case SeqReceive => ClientKeepsInv(s, st);
    case SeqStep => SeqStepKeepsInv(s);
    case SeqCollect(w) => SeqCollectKeepsInv(s, w);
    case WorkerStep(w) => WorkerStepKeepsInv(s, w);
  }

  // ----- all runs -----

  predicate IsRun(s: Sys, steps: seq<Step>)
    decreases |steps|
  {
    steps != [] ==> Enabled(s, steps[0]) && IsRun(Next(s, steps[0]), steps[1..])
  }

  function After(s: Sys, steps: seq<Step>): Sys
    requires IsRun(s, steps)
    decreases |steps|
  {
    if steps == [] then s else After(Next(s, steps[0]), steps[1..])
  }

  lemma {:induction false} SequencerInvariant(s: Sys, steps: seq<Step>)
    requires Inv(s) && IsRun(s, steps)
    ensures Inv(After(s, steps))
    decreases |steps|
  {
    if steps != [] {
      StepKeepsInv(s, steps[0]);
      SequencerInvariant(Next(s, steps[0]), steps[1..]);
    }
  }

  /** Every worker is off, with nothing in its mailbox. */
  ghost predicate AllOff(s: Sys) {
    forall w :: 0 <= w < |s.workers| ==> IsOff(s.workers[w], [])
  }

  /** Every worker is past INIT and in the given state, or will be once it has
      taken START, the only message in its mailbox; it runs with this delay. */
  ghost predicate AllOn(s: Sys, st: int) {
    forall w :: 0 <= w < |s.workers| ==> IsOn(s.workers[w], st, []) && s.workers[w].delay == s.session
  }

  /** Whatever commands clients send and however the tasks interleave: no assertion
      fails, no variable is read after its lifetime, no worker enters its main
      function outside READY, no mailbox of a worker holds more than two messages;
      and between two commands the workers agree with the sequencer's state. */
  lemma SequencerSafe(steps: seq<Step>)
    requires IsRun(Start(), steps)
    ensures var s := After(Start(), steps);
            && !s.fault
            && (forall w :: 0 <= w < |s.workers| ==> |s.workers[w].box| <= 2)
            && (forall w :: 0 <= w < |s.workers| && s.workers[w].pc == Wait ==> s.workers[w].state == READY)
            && (s.sequencer.Idle? ==> if s.state == READY then AllOff(s) else AllOn(s, s.state))
  {
    SequencerInvariant(Start(), steps);
    var s := After(Start(), steps);
    forall w | 0 <= w < |s.workers|
      ensures |s.workers[w].box| <= 2 && (s.workers[w].pc == Wait ==> s.workers[w].state == READY)
    {
      assert Fits(s.workers[w], PhaseOf(s, w), s.session);
    }
  }

  /** Steps a worker still has to make before it acknowledges what it was sent. */
  function StepsToAck(w: Worker): nat {
    if w.acks > 0 then 0
    else
      match w.pc
      case WaitStart => 5
      case SetRun => 4 case PauseSet => 4 case ResumeSet => 4 case StopSet => 4
      case Run => 3 case Wait => 3
      case ReadDelay => 2 case PauseAck => 2 case ResumeAck => 2 case StopAck => 2
      case InitAck => 1
  }

  /** No command hangs: where the sequencer cannot go on it waits for the answer of
      a worker, and that worker can step, each step bringing the answer nearer. */
  lemma NotStuck(s: Sys)
    requires Inv(s) && s.sequencer.Busy? && !Enabled(s, SeqStep)
    requires forall w: nat :: !Enabled(s, SeqCollect(w))
    ensures exists w: nat :: Enabled(s, WorkerStep(w)) && StepsToAck(s.workers[w]) > 0
              && StepsToAck(Next(s, WorkerStep(w)).workers[w]) < StepsToAck(s.workers[w])
              && (PhaseOf(s, w).Initing? || PhaseOf(s, w).Told?)
  {
    var w: nat;
    match s.sequencer.pc {
      case InitWait(i) => w := i;
      case StopWait(i) => w := i;
      case CastWait(cmd, left) => w :| w in left;
      case _ =>
    }
    assert !Enabled(s, SeqCollect(w));
    assert Fits(s.workers[w], PhaseOf(s, w), s.session);
    WorkerKeepsPhase(s.workers[w], PhaseOf(s, w), s.frames, s.session);
    assert Enabled(s, WorkerStep(w));
  }
}
