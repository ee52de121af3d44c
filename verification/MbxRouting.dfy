/** Where the messages of a mailbox call go: each to its own target, with the command and
    parameter of the call, and the answers a call waits for come from its targets. */
module MbxRouting {
  import opened Wrappers
  import opened OsaMbx
  import opened MbxSafety

  /** A message on its way to a receiver is in the receive queue of the mailbox it is
      addressed to, or was received from there; an acknowledged one was answered by a
      thread that received it there. */
  ghost predicate PlaceOk(s: Sys, h: Handle)
    requires h in s.live
  {
    var msg := s.live[h];
    && (forall x :: msg.at == In(Rcv(x)) ==> x == msg.to)
    && (h in s.hands ==> s.hands[h] == msg.to)
    && (msg.at.In? && msg.at.box.Ack? ==> AnsweredBy(s, msg.id, msg.to))
  }

  ghost predicate AnsweredBy(s: Sys, id: int, m: Mbx) { id in s.ackBy && s.ackBy[id] == m }

  /** A message its sender waits for is the one for the target at its position, with what
      the call passed. */
  ghost predicate AddressOk(s: Sys, h: Handle)
    requires h in s.live
  {
    var msg := s.live[h];
    msg.waitAck && msg.from.Some? && Snd(s, msg.from.value).Busy? ==>
      var c := Snd(s, msg.from.value).call;
      msg.slot < |c.targets| && msg.to == c.targets[msg.slot] && msg.cmd == c.cmd && msg.prm == c.prm
  }

  /** Whatever the call has collected was answered by the target at its position. */
  ghost predicate GotOk(s: Sys, b: Sender)
    requires b.Busy?
  {
    forall i :: i in b.got ==> i < |b.ids| <= |b.call.targets| && AnsweredBy(s, b.ids[i], b.call.targets[i])
  }

  ghost predicate FromTargets(s: Sys, r: Result) {
    |r.ids| == |r.call.targets| && forall i :: 0 <= i < |r.ids| ==> AnsweredBy(s, r.ids[i], r.call.targets[i])
  }

  ghost predicate Routed(s: Sys) {
    && (forall h :: h in s.live ==> PlaceOk(s, h) && AddressOk(s, h))
    && (forall m :: Snd(s, m).Busy? ==> GotOk(s, Snd(s, m)))
    && (forall k :: 0 <= k < |s.results| ==> FromTargets(s, s.results[k]))
    && (forall id :: id in s.ackBy ==> id in s.ackLog)
  }

  // ----- every step -----

  /** The i-th message of a call goes to the i-th target, at the end of its receive queue
      and nowhere else, with the command and the parameter of the call. */
  lemma SendGoesToTarget(s: Sys, m: Mbx, h: Handle)
    requires Inv(s) && Enabled(s, Send(m, h))
    ensures var t, b := Next(s, Send(m, h)), Snd(s, m);
            var target := b.call.targets[|b.sent|];
            && Q(t, Rcv(target)) == Q(s, Rcv(target)) + [h]
            && (forall x :: x != Rcv(target) ==> Q(t, x) == Q(s, x))
            && h in t.live && t.live[h].to == target && t.live[h].from == Some(m)
            && t.live[h].cmd == b.call.cmd && t.live[h].prm == b.call.prm && t.live[h].waitAck == b.call.waitAck
  {
  }

  lemma SendAnonGoesToTarget(s: Sys, to: Mbx, cmd: int, prm: Option<Prm>, freePrm: bool, h: Handle)
    requires Inv(s) && Enabled(s, SendAnon(to, cmd, prm, freePrm, h))
    ensures var t := Next(s, SendAnon(to, cmd, prm, freePrm, h));
            && Q(t, Rcv(to)) == Q(s, Rcv(to)) + [h]
            && (forall x :: x != Rcv(to) ==> Q(t, x) == Q(s, x))
            && h in t.live && t.live[h].to == to && t.live[h].cmd == cmd && t.live[h].prm == prm
            && t.live[h].from == None && !t.live[h].waitAck
  {
  }

  /** An answer is recorded with the status given and returns to the sender's queue. */
  lemma AnswerGoesBack(s: Sys, h: Handle, status: int)
    requires Inv(s) && Enabled(s, AckOrFree(h, status)) && s.live[h].waitAck
    ensures var t, msg := Next(s, AckOrFree(h, status)), s.live[h];
            && msg.from.Some? && Q(t, Ack(msg.from.value)) == Q(s, Ack(msg.from.value)) + [h]
            && (forall x :: x != Ack(msg.from.value) ==> Q(t, x) == Q(s, x))
            && msg.id in t.ackLog && t.ackLog[msg.id] == status && AnsweredBy(t, msg.id, s.hands[h])
            && h in t.live && t.live[h] == msg.(status := status, at := In(Ack(msg.from.value)))
  {
    assert MsgOk(s, h);
  }

  lemma BeginRouted(s: Sys, m: Mbx, call: Call)
    requires Inv(s) && Routed(s) && Enabled(s, Begin(m, call))
    ensures Routed(Next(s, Begin(m, call)))
  {
    var t := Next(s, Begin(m, call));
    forall h | h in t.live ensures PlaceOk(t, h) && AddressOk(t, h) {
      assert PlaceOk(s, h) && AddressOk(s, h) && MsgOk(s, h);
    }
    forall x | Snd(t, x).Busy? ensures GotOk(t, Snd(t, x)) { if x != m { assert GotOk(s, Snd(s, x)); } }
    forall k | 0 <= k < |t.results| ensures FromTargets(t, t.results[k]) { assert FromTargets(s, s.results[k]); }
  }

  lemma SendRouted(s: Sys, m: Mbx, h: Handle)
    requires Inv(s) && Routed(s) && Enabled(s, Send(m, h))
    ensures Routed(Next(s, Send(m, h)))
  {
    var t := Next(s, Send(m, h));
    assert SenderOk(s, m);
    SendKeepsInv(s, m, h);
    forall x | x in t.live ensures PlaceOk(t, x) && AddressOk(t, x) {
      if x != h { assert PlaceOk(s, x) && AddressOk(s, x) && MsgOk(s, x) && t.live[x] == s.live[x]; }
    }
    forall x | Snd(t, x).Busy? ensures GotOk(t, Snd(t, x)) { assert GotOk(s, Snd(s, x)) && SenderOk(t, x); }
    forall k | 0 <= k < |t.results| ensures FromTargets(t, t.results[k]) { assert FromTargets(s, s.results[k]); }
  }

  lemma SendAnonRouted(s: Sys, to: Mbx, cmd: int, prm: Option<Prm>, freePrm: bool, h: Handle)
    requires Inv(s) && Routed(s) && Enabled(s, SendAnon(to, cmd, prm, freePrm, h))
    ensures Routed(Next(s, SendAnon(to, cmd, prm, freePrm, h)))
  {
    var t := Next(s, SendAnon(to, cmd, prm, freePrm, h));
    forall x | x in t.live ensures PlaceOk(t, x) && AddressOk(t, x) {
      if x != h { assert PlaceOk(s, x) && AddressOk(s, x) && t.live[x] == s.live[x]; }
    }
    forall x | Snd(t, x).Busy? ensures GotOk(t, Snd(t, x)) { assert GotOk(s, Snd(s, x)); }
    forall k | 0 <= k < |t.results| ensures FromTargets(t, t.results[k]) { assert FromTargets(s, s.results[k]); }
  }

  lemma ReceiveRouted(s: Sys, m: Mbx)
    requires Inv(s) && Routed(s) && Enabled(s, Receive(m))
    ensures Routed(Next(s, Receive(m)))
  {
    var t, h := Next(s, Receive(m)), Q(s, Rcv(m))[0];
    assert BoxOk(s, Rcv(m)) && PlaceOk(s, h);
    forall x | x in t.live ensures PlaceOk(t, x) && AddressOk(t, x) { assert PlaceOk(s, x) && AddressOk(s, x); }
    forall x | Snd(t, x).Busy? ensures GotOk(t, Snd(t, x)) { assert GotOk(s, Snd(s, x)); }
    forall k | 0 <= k < |t.results| ensures FromTargets(t, t.results[k]) { assert FromTargets(s, s.results[k]); }
  }

  lemma AckRouted(s: Sys, h: Handle, status: int)
    requires Inv(s) && Routed(s) && Enabled(s, AckOrFree(h, status)) && s.live[h].waitAck
    ensures Routed(Next(s, AckOrFree(h, status)))
  {
    var t := Next(s, AckOrFree(h, status));
    assert MsgOk(s, h) && PlaceOk(s, h);
    forall x | x in t.live ensures PlaceOk(t, x) && AddressOk(t, x) {
      assert PlaceOk(s, x) && AddressOk(s, x) && MsgOk(s, x);
    }
    forall x | Snd(t, x).Busy? ensures GotOk(t, Snd(t, x)) { assert GotOk(s, Snd(s, x)) && SenderOk(s, x); }
    forall k | 0 <= k < |t.results| ensures FromTargets(t, t.results[k]) {
      assert FromTargets(s, s.results[k]) && ResultOk(s.ackLog, s.results[k]);
    }
  }

  lemma FreeRouted(s: Sys, h: Handle, status: int)
    requires Inv(s) && Routed(s) && Enabled(s, AckOrFree(h, status)) && !s.live[h].waitAck
    ensures Routed(Next(s, AckOrFree(h, status)))
  {
    var t := Next(s, AckOrFree(h, status));
    FreeIsLess(s, h, status);
    forall x | x in t.live ensures PlaceOk(t, x) && AddressOk(t, x) { assert PlaceOk(s, x) && AddressOk(s, x); }
    forall x | Snd(t, x).Busy? ensures GotOk(t, Snd(t, x)) { assert GotOk(s, Snd(s, x)); }
    forall k | 0 <= k < |t.results| ensures FromTargets(t, t.results[k]) { assert FromTargets(s, s.results[k]); }
  }

  lemma FreeIsLess(s: Sys, h: Handle, status: int)
    requires Inv(s) && Enabled(s, AckOrFree(h, status)) && !s.live[h].waitAck
    ensures var t := Next(s, AckOrFree(h, status));
            && t.live == s.live - {h} && t.hands == s.hands - {h} && t.snd == s.snd
            && t.ackLog == s.ackLog && t.ackBy == s.ackBy && t.results == s.results
  {
    if s.live[h].freePrm && s.live[h].prm.Some? { PrmOfMessage(s, h); }
    FreeShape(s, h, status);
  }

  lemma CollectRouted(s: Sys, m: Mbx)
    requires Inv(s) && Routed(s) && Enabled(s, Collect(m))
    ensures Routed(Next(s, Collect(m)))
  {
    var t := Next(s, Collect(m));
    CollectIsExpected(s, m);
    CollectHasShape(s, m);
    forall x | x in t.live ensures PlaceOk(t, x) && AddressOk(t, x) {
      assert PlaceOk(s, x) && AddressOk(s, x);
      StillAddressed(s, m, t, x);
    }
    CollectGot(s, m, t);
    CollectFromTargets(s, m, t);
  }

  /** The sender as it is just after the acknowledgement was taken. */
  lemma GotOneMore(s: Sys, m: Mbx)
    requires Inv(s) && Routed(s) && Enabled(s, Collect(m))
    ensures var h := Q(s, Ack(m))[0];
            h in s.live && GotOk(s, Advanced(Snd(s, m), s.live[h].slot, s.live[h].status))
  {
    var b, h := Snd(s, m), Q(s, Ack(m))[0];
    AckIsExpected(s, m);
    assert SenderOk(s, m) && PlaceOk(s, h) && AddressOk(s, h) && GotOk(s, b);
  }

  lemma CollectGot(s: Sys, m: Mbx, t: Sys)
    requires Inv(s) && Routed(s) && Enabled(s, Collect(m)) && CollectShape(s, m, t)
    ensures forall x :: Snd(t, x).Busy? ==> GotOk(t, Snd(t, x))
  {
    GotOneMore(s, m);
    forall x | Snd(t, x).Busy? ensures GotOk(t, Snd(t, x)) { if x != m { assert GotOk(s, Snd(s, x)); } }
  }

  lemma CollectFromTargets(s: Sys, m: Mbx, t: Sys)
    requires Inv(s) && Routed(s) && Enabled(s, Collect(m)) && CollectShape(s, m, t)
    ensures forall k :: 0 <= k < |t.results| ==> FromTargets(t, t.results[k])
  {
    GotOneMore(s, m);
    AllSent(s, m);
    var b, h := Snd(s, m), Q(s, Ack(m))[0];
    var b1 := Advanced(b, s.live[h].slot, s.live[h].status);
    CollectedFrom(s, t, m, b, b1);
  }

  lemma AllSent(s: Sys, m: Mbx)
    requires Inv(s) && Enabled(s, Collect(m))
    ensures |Snd(s, m).ids| == |Snd(s, m).sent| == |Snd(s, m).call.targets|
  {
    assert SenderOk(s, m);
  }

  lemma CollectedFrom(s: Sys, t: Sys, m: Mbx, b: Sender, b1: Sender)
    requires b.Busy? && b1.Busy? && b1.ids == b.ids && b1.sent == b.sent && b1.call == b.call && GotOk(s, b1)
    requires |b.ids| == |b.sent| == |b.call.targets| && t.ackBy == s.ackBy
    requires t.results == if AllGot(b1) then s.results + [Result(m, b.ids, Order(b.ids, b1.got), b1.ret, b.call)]
                          else s.results
    requires forall k :: 0 <= k < |s.results| ==> FromTargets(s, s.results[k])
    ensures forall k :: 0 <= k < |t.results| ==> FromTargets(t, t.results[k])
  {
    forall k | 0 <= k < |t.results| ensures FromTargets(t, t.results[k]) {
      if k < |s.results| {
        assert FromTargets(s, s.results[k]);
      } else {
        AllFromTargets(t, b1, t.results[k]);
      }
    }
  }

  lemma AllFromTargets(s: Sys, b: Sender, r: Result)
    requires b.Busy? && GotOk(s, b) && AllGot(b) && |b.ids| == |b.sent| == |b.call.targets|
    requires r.ids == b.ids && r.call == b.call
    ensures FromTargets(s, r)
  {
    forall i | 0 <= i < |r.ids| ensures AnsweredBy(s, r.ids[i], r.call.targets[i]) { assert i in b.got; }
  }

  lemma StillAddressed(s: Sys, m: Mbx, t: Sys, x: Handle)
    requires Inv(s) && Enabled(s, Collect(m)) && CollectShape(s, m, t) && x in t.live && AddressOk(s, x)
    ensures AddressOk(t, x)
  {
  }

  lemma StepKeepsRouted(s: Sys, st: Step)
    requires Inv(s) && Routed(s) && Enabled(s, st)
    ensures Routed(Next(s, st))
  {
    match st
    case Begin(m, call) => BeginRouted(s, m, call);
    case Send(m, h) => SendRouted(s, m, h);
    case SendAnon(to, cmd, prm, freePrm, h) => SendAnonRouted(s, to, cmd, prm, freePrm, h);
    case Receive(m) => ReceiveRouted(s, m);
    case ReadPrm(h) => if s.live[h].freePrm && s.live[h].prm.Some? { PrmOfMessage(s, h); }
    case AckOrFree(h, status) =>
      if s.live[h].waitAck { AckRouted(s, h, status); } else { FreeRouted(s, h, status); }
    case Collect(m) => CollectRouted(s, m);
    case FlushAck(m) => NoStaleAck(s, m);
  }

  // ----- all runs -----

  lemma {:induction false} RunKeepsRouted(s: Sys, steps: seq<Step>)
    requires Inv(s) && Routed(s) && IsRun(s, steps)
    ensures Routed(After(s, steps))
    decreases |steps|
  {
    if steps != [] {
      StepKeepsInv(s, steps[0]);
      StepKeepsRouted(s, steps[0]);
      RunKeepsRouted(Next(s, steps[0]), steps[1..]);
    }
  }

  /** A call that waits for acknowledgements has sent one message to each of its targets,
      and returns only after each of these was answered by a thread that received it
      from that target's mailbox; the answers are those it returns the fold of. */
  lemma TargetsAnswer(steps: seq<Step>, k: nat)
    requires IsRun(Start(), steps) && k < |After(Start(), steps).results|
    ensures var s := After(Start(), steps);
            var r := s.results[k];
            && |r.ids| == |r.call.targets|
            && (forall i, j :: 0 <= i < j < |r.ids| ==> r.ids[i] != r.ids[j])
            && (forall i :: 0 <= i < |r.ids| ==> AnsweredBy(s, r.ids[i], r.call.targets[i]) && r.ids[i] in s.ackLog)
            && (forall x :: x in r.order <==> x in r.ids)
  {
    StartInv();
    MailboxInvariant(Start(), steps);
    RunKeepsRouted(Start(), steps);
    var s := After(Start(), steps);
    assert FromTargets(s, s.results[k]) && ResultOk(s.ackLog, s.results[k]);
  }

  /** Whatever a thread received, it was addressed to that mailbox; and what a sender
      still waits for carries the command and the parameter of its call. */
  lemma ReceivedWhatWasSent(steps: seq<Step>, h: Handle)
    requires IsRun(Start(), steps) && h in After(Start(), steps).hands
    ensures var s := After(Start(), steps);
            && h in s.live && s.live[h].to == s.hands[h]
            && (s.live[h].waitAck ==>
                  && s.live[h].from.Some? && Snd(s, s.live[h].from.value).Busy?
                  && var c := Snd(s, s.live[h].from.value).call;
                  && s.live[h].slot < |c.targets| && c.targets[s.live[h].slot] == s.hands[h]
                  && s.live[h].cmd == c.cmd && s.live[h].prm == c.prm)
  {
    StartInv();
    MailboxInvariant(Start(), steps);
    RunKeepsRouted(Start(), steps);
    var s := After(Start(), steps);
    assert MsgOk(s, h) && PlaceOk(s, h) && AddressOk(s, h);
  }
}
