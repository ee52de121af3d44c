/** What the commands of the clients do: the sequencer carries them out one after the
    other, in the order they were sent, each leading to the state a table names. */
module SequencerCommands {
  import opened OsaSequencer

  datatype Submission = Submission(cmd: int, delay: int)

  /** The state a command leads to; any other combination changes nothing. */
  function Target(st: int, cmd: int): int {
    if st == READY && cmd == CMD_START then RUN
    else if st == RUN && cmd == CMD_STOP then READY
    else if st == RUN && cmd == CMD_PAUSE then PAUSE
    else if st == PAUSE && cmd == CMD_STOP then READY
    else if st == PAUSE && (cmd == CMD_START || cmd == CMD_RESUME) then RUN
    else st
  }

  /** Only a start out of READY begins a session, with the delay sent along. */
  function SessionNext(st: int, session: int, sub: Submission): int {
    if st == READY && sub.cmd == CMD_START then sub.delay else session
  }

  function StateAfter(subs: seq<Submission>): int {
    if subs == [] then READY else Target(StateAfter(subs[..|subs| - 1]), subs[|subs| - 1].cmd)
  }

  function SessionAfter(subs: seq<Submission>): int {
    if subs == [] then 0
    else
      var rest := subs[..|subs| - 1];
      SessionNext(StateAfter(rest), SessionAfter(rest), subs[|subs| - 1])
  }

  /** What clients sent in a run, in order. */
  function Submissions(steps: seq<Step>): seq<Submission> {
    if steps == [] then []
    else (if steps[0].Submit? then [Submission(steps[0].cmd, steps[0].delay)] else []) + Submissions(steps[1..])
  }

  /** How many commands have been answered. */
  function Done(s: Sys, subs: seq<Submission>): int {
    |subs| - |s.inbox| - if s.sequencer.Busy? then 1 else 0
  }

  /** The sequencer is on its way from a state and session to those its command names. */
  predicate OnTheWay(s: Sys, st: int, session: int, sub: Submission)
    requires s.sequencer.Busy?
  {
    match s.sequencer.pc
    case Dispatch => s.state == st && s.session == session
    case InitSend(_) => Starting(s, st, sub)
    case InitWait(_) => Starting(s, st, sub)
    case StartSend(_) => Starting(s, st, sub)
    case StopSend(_) => Going(s, st, session, sub, READY)
    case StopWait(_) => Going(s, st, session, sub, READY)
    case CastSend(c, _) => Going(s, st, session, sub, CastTarget(c))
    case CastWait(c, _) => Going(s, st, session, sub, CastTarget(c))
    case SetState(next) =>
      s.state == st && next == Target(st, sub.cmd) && s.session == SessionNext(st, session, sub)
    case Reply => s.state == Target(st, sub.cmd) && s.session == SessionNext(st, session, sub)
  }

  predicate Starting(s: Sys, st: int, sub: Submission) {
    s.state == st == READY && sub.cmd == CMD_START && s.session == sub.delay
  }

  predicate Going(s: Sys, st: int, session: int, sub: Submission, next: int) {
    s.state == st != READY && s.session == session && Target(st, sub.cmd) == next
  }

  /** The clients' messages, from the n-th on, wait in the order they were sent, each with
      its parameter alive. */
  ghost predicate Waiting(s: Sys, subs: seq<Submission>) {
    var n := Done(s, subs);
    && s.next == |subs| && 0 <= n
    && (forall i :: 0 <= i < |s.inbox| ==>
          s.inbox[i] == Msg(subs[|subs| - |s.inbox| + i].cmd, |subs| - |s.inbox| + i, true))
    && (s.sequencer.Busy? ==> s.sequencer.cur == Msg(subs[n].cmd, n, true))
    && (forall k :: n <= k < |subs| ==> k in s.frames && s.frames[k] == subs[k].delay)
  }

  ghost predicate Executed(s: Sys, subs: seq<Submission>) {
    && Waiting(s, subs)
    && var n := Done(s, subs);
    var st, session := StateAfter(subs[..n]), SessionAfter(subs[..n]);
    if s.sequencer.Busy? then OnTheWay(s, st, session, subs[n]) else s.state == st && s.session == session
  }

  function Sent(subs: seq<Submission>, st: Step): seq<Submission> {
    if st.Submit? then subs + [Submission(st.cmd, st.delay)] else subs
  }

  lemma SubmitExecuted(s: Sys, subs: seq<Submission>, st: Step)
    requires Executed(s, subs) && st.Submit?
    ensures Executed(Next(s, st), Sent(subs, st))
  {
    var t, subs1, n := Next(s, st), Sent(subs, st), Done(s, subs);
    assert Done(t, subs1) == n && subs1[..n] == subs[..n];
  }

  lemma ReceiveExecuted(s: Sys, subs: seq<Submission>)
    requires Executed(s, subs) && Enabled(s, SeqReceive)
    ensures Executed(Next(s, SeqReceive), subs)
  {
    var t := Next(s, SeqReceive);
    assert Done(t, subs) == Done(s, subs);
    assert s.inbox[0] == Msg(subs[|subs| - |s.inbox|].cmd, |subs| - |s.inbox|, true);
  }

  /** Each step of the sequencer stays on the way. */
  lemma StepOnTheWay(s: Sys, st: int, session: int, sub: Submission)
    requires SeqEnabled(s) && OnTheWay(s, st, session, sub) && st in {READY, RUN, PAUSE}
    requires s.sequencer.cur.cmd == sub.cmd && s.sequencer.cur.prm in s.frames
    requires s.frames[s.sequencer.cur.prm] == sub.delay
    ensures var t := SeqNext(s);
            if s.sequencer.pc.Reply? then
              t.sequencer.Idle? && t.state == Target(st, sub.cmd) && t.session == SessionNext(st, session, sub)
            else
              t.sequencer.Busy? && t.sequencer.cur == s.sequencer.cur && OnTheWay(t, st, session, sub)
  {
  }

  lemma {:induction false} StatesKnown(subs: seq<Submission>)
    ensures StateAfter(subs) in {READY, RUN, PAUSE}
  {
    if subs != [] { StatesKnown(subs[..|subs| - 1]); }
  }

  lemma SeqStepExecuted(s: Sys, subs: seq<Submission>)
    requires Executed(s, subs) && Enabled(s, SeqStep)
    ensures Executed(Next(s, SeqStep), subs)
  {
    var t, n := Next(s, SeqStep), Done(s, subs);
    StatesKnown(subs[..n]);
    StepOnTheWay(s, StateAfter(subs[..n]), SessionAfter(subs[..n]), subs[n]);
    if s.sequencer.pc.Reply? {
      assert subs[..n + 1][..n] == subs[..n];
      assert Done(t, subs) == n + 1;
    } else {
      FramesKept(s, n);
      assert Done(t, subs) == n;
    }
  }

  /** Only its reply ends the life of a client's parameter. */
  lemma FramesKept(s: Sys, n: int)
    requires SeqEnabled(s) && !s.sequencer.pc.Reply?
    ensures var t := SeqNext(s);
            && t.inbox == s.inbox && t.next == s.next
            && forall k :: 0 <= k && k in s.frames ==> k in t.frames && t.frames[k] == s.frames[k]
  {
  }

  lemma StepExecuted(s: Sys, subs: seq<Submission>, st: Step)
    requires Executed(s, subs) && Enabled(s, st)
    ensures Executed(Next(s, st), Sent(subs, st))
  {
    match st
    case Submit(_, _) => SubmitExecuted(s, subs, st);
    case SeqReceive => ReceiveExecuted(s, subs);
    case SeqStep => SeqStepExecuted(s, subs);
    case SeqCollect(_) =>
    case WorkerStep(_) =>
  }

  lemma FirstStep(s: Sys, steps: seq<Step>)
    requires steps != [] && IsRun(s, steps)
    ensures Enabled(s, steps[0]) && IsRun(Next(s, steps[0]), steps[1..])
    ensures After(s, steps) == After(Next(s, steps[0]), steps[1..])
  {
  }

  lemma SentFirst(steps: seq<Step>, subs: seq<Submission>)
    requires steps != []
    ensures Sent(subs, steps[0]) + Submissions(steps[1..]) == subs + Submissions(steps)
  {
    var st, rest := steps[0], Submissions(steps[1..]);
    if st.Submit? {
      Appended(subs, [Submission(st.cmd, st.delay)], rest);
    } else {
      assert [] + rest == rest;
    }
  }

  lemma Appended(a: seq<Submission>, b: seq<Submission>, c: seq<Submission>)
    ensures (a + b) + c == a + (b + c)
  {
  }

  lemma {:induction false} RunExecuted(s: Sys, subs: seq<Submission>, steps: seq<Step>)
    requires Executed(s, subs) && IsRun(s, steps)
    ensures Executed(After(s, steps), subs + Submissions(steps))
    decreases |steps|
  {
    if steps == [] {
      assert subs + [] == subs;
    } else {
      FirstStep(s, steps);
      SentFirst(steps, subs);
      StepExecuted(s, subs, steps[0]);
      RunExecuted(Next(s, steps[0]), Sent(subs, steps[0]), steps[1..]);
    }
  }

  lemma IdleExecuted(s: Sys, subs: seq<Submission>, n: int)
    requires Executed(s, subs) && s.sequencer.Idle? && n == |subs| - |s.inbox|
    ensures 0 <= n && s.state == StateAfter(subs[..n]) && s.session == SessionAfter(subs[..n])
    ensures forall i :: 0 <= i < |s.inbox| ==> s.inbox[i].cmd == subs[n + i].cmd
  {
    assert n == Done(s, subs);
  }

  lemma StartExecuted(steps: seq<Step>)
    requires IsRun(Start(), steps)
    ensures Executed(After(Start(), steps), Submissions(steps))
  {
    RunExecuted(Start(), [], steps);
    assert [] + Submissions(steps) == Submissions(steps);
  }

  /** Over every run: between two commands the sequencer is in the state, and the last
      session has the delay, that the commands answered so far lead to one after the
      other; the others wait in the order they were sent. */
  lemma CommandsExecuted(steps: seq<Step>)
    requires IsRun(Start(), steps) && After(Start(), steps).sequencer.Idle?
    ensures var s, subs := After(Start(), steps), Submissions(steps);
            var n := |subs| - |s.inbox|;
            && 0 <= n && s.state == StateAfter(subs[..n]) && s.session == SessionAfter(subs[..n])
            && forall i :: 0 <= i < |s.inbox| ==> s.inbox[i].cmd == subs[n + i].cmd
  {
    var s, subs := After(Start(), steps), Submissions(steps);
    StartExecuted(steps);
    IdleExecuted(s, subs, |subs| - |s.inbox|);
  }

  /** With the workers: they run with that delay in that state, or will once they have
      taken START, or are off. */
  lemma WorkersFollow(steps: seq<Step>)
    requires IsRun(Start(), steps) && After(Start(), steps).sequencer.Idle?
    ensures var s, subs := After(Start(), steps), Submissions(steps);
            var n := |subs| - |s.inbox|;
            && 0 <= n
            && if StateAfter(subs[..n]) == READY then AllOff(s)
               else AllOn(s, StateAfter(subs[..n])) && s.session == SessionAfter(subs[..n])
  {
    CommandsExecuted(steps);
    SequencerSafe(steps);
  }
}
