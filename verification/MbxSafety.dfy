/** What every run of the mailboxes keeps: no message or parameter is touched
    after it was freed or freed twice, and a call that waits for acknowledgements
    returns what its receivers answered. */
module MbxSafety {
  import opened Wrappers
  import opened OsaMbx
  import opened Finite

  // ----- the invariant, in six parts -----

  /** A queue holds exactly the live messages that are in it, each once. */
  ghost predicate BoxOk(s: Sys, b: Box) {
    && (forall i :: 0 <= i < |Q(s, b)| ==> Q(s, b)[i] in s.live && s.live[Q(s, b)[i]].at == In(b))
    && Distinct(Q(s, b))
    && (forall h :: h in s.live && s.live[h].at == In(b) ==> h in Q(s, b))
  }

  ghost predicate BoxesOk(s: Sys) { forall b :: BoxOk(s, b) }

  /** The sender of a message it waits for still has the message on its list. */
  ghost predicate Outstanding(s: Sys, h: Handle, msg: Msg) {
    && msg.from.Some?
    && var b := Snd(s, msg.from.value);
    && b.Busy? && b.call.waitAck && msg.slot < |b.sent| == |b.ids|
    && b.sent[msg.slot] == h && b.ids[msg.slot] == msg.id && msg.slot !in b.got
    && msg.prm == b.call.prm && msg.freePrm == b.call.freePrm
  }

  ghost predicate MsgOk(s: Sys, h: Handle)
    requires h in s.live
  {
    var msg := s.live[h];
    && msg.id < s.next
    && (msg.waitAck ==> Outstanding(s, h, msg))
    && (forall m :: msg.at == In(Ack(m)) ==>
          msg.waitAck && msg.from == Some(m) && msg.id in s.ackLog && s.ackLog[msg.id] == msg.status)
    && (msg.waitAck && (msg.at == InHand || msg.at.box.Rcv?) ==> msg.id !in s.ackLog)
  }

  /** Every live message is in order, and serial numbers tell them apart. */
  ghost predicate MsgsOk(s: Sys) {
    && (forall h :: h in s.live ==> MsgOk(s, h))
    && (forall x, y :: x in s.live && y in s.live && s.live[x].id == s.live[y].id ==> x == y)
  }

  /** Serial numbers grow; acknowledged positions are distinct; each position not
      yet acknowledged is a live message; the status is the fold of the answers. */
  ghost predicate CallOk(s: Sys, m: Mbx, b: Sender)
    requires b.Busy?
  {
    && ValidCall(b.call) && |b.ids| == |b.sent| <= |b.call.targets|
    && (forall i, j :: 0 <= i < j < |b.ids| ==> b.ids[i] < b.ids[j])
    && (forall i :: 0 <= i < |b.ids| ==> b.ids[i] < s.next)
    && (forall i :: 0 <= i < |b.got| ==> b.got[i] < |b.sent| && b.ids[b.got[i]] in s.ackLog)
    && (forall i, j :: 0 <= i < j < |b.got| ==> b.got[i] != b.got[j])
    && (b.call.waitAck ==> Distinct(b.sent))
    && b.ret == Fold(s.ackLog, Order(b.ids, b.got))
    && (b.got != [] ==> |b.sent| == |b.call.targets|)
    && (|b.sent| == |b.call.targets| ==> b.call.waitAck && !AllGot(b))
    && (!b.call.broadcast ==> b.got == [])
  }

  ghost predicate SlotOk(s: Sys, m: Mbx, b: Sender, i: nat)
    requires b.Busy? && i < |b.sent| == |b.ids|
  {
    b.call.waitAck && i !in b.got ==>
      b.sent[i] in s.live && var msg := s.live[b.sent[i]];
      msg.waitAck && msg.from == Some(m) && msg.slot == i && msg.id == b.ids[i]
  }

  ghost predicate SenderOk(s: Sys, m: Mbx) {
    var b := Snd(s, m);
    b.Busy? ==>
      && CallOk(s, m, b)
      && forall i :: 0 <= i < |b.sent| ==> SlotOk(s, m, b, i)
  }

  ghost predicate SendersOk(s: Sys) { forall m :: SenderOk(s, m) }

  /** A call will itself free its parameter: always with acknowledgements, and
      without them only until the message is sent. */
  ghost predicate CallOwns(s: Sys, m: Mbx, p: Prm) {
    var b := Snd(s, m);
    b.Busy? && b.call.freePrm && b.call.prm == Some(p) && (b.call.waitAck || b.sent == [])
  }

  ghost predicate MsgOwns(s: Sys, h: Handle, p: Prm) {
    h in s.live && s.live[h].freePrm && s.live[h].prm == Some(p) && !s.live[h].waitAck
  }

  ghost predicate Owned(s: Sys, p: Prm, o: Owner) { p in s.prms && s.prms[p] == o }

  /** Every parameter to be freed is live and has exactly the owner recorded. */
  ghost predicate PrmOk(s: Sys, p: Prm) {
    && (forall m :: CallOwns(s, m, p) <==> Owned(s, p, ByCall(m)))
    && (forall h :: MsgOwns(s, h, p) <==> Owned(s, p, ByMsg(h)))
  }

  ghost predicate PrmsOk(s: Sys) { forall p :: PrmOk(s, p) }

  function Answer(log: map<int, int>, id: int): int { if id in log then log[id] else SOK }

  /** The status kept while answers arrive in this order. */
  function Fold(log: map<int, int>, order: seq<int>): int {
    if order == [] then SOK
    else Collected(Fold(log, order[..|order| - 1]), Answer(log, order[|order| - 1]))
  }

  /** A completed call was acknowledged once by each of its receivers and returned
      the fold of their answers. */
  ghost predicate ResultOk(log: map<int, int>, r: Result) {
    && r.ids != []
    && (forall x :: x in r.order <==> x in r.ids)
    && (forall i, j :: 0 <= i < j < |r.order| ==> r.order[i] != r.order[j])
    && (forall i, j :: 0 <= i < j < |r.ids| ==> r.ids[i] != r.ids[j])
    && (forall x :: x in r.ids ==> x in log)
    && r.ret == Fold(log, r.order)
  }

  ghost predicate ResultsOk(s: Sys) {
    && (forall id :: id in s.ackLog ==> id < s.next)
    && (forall k :: 0 <= k < |s.results| ==> ResultOk(s.ackLog, s.results[k]))
  }

  /** A thread holds exactly the live messages that are in no queue. */
  ghost predicate HandsOk(s: Sys) {
    forall h :: h in s.hands <==> h in s.live && s.live[h].at == InHand
  }

  ghost predicate Inv(s: Sys) {
    !s.fault && HandsOk(s) && BoxesOk(s) && MsgsOk(s) && SendersOk(s) && PrmsOk(s) && ResultsOk(s)
  }

  // ----- starting a call -----

  lemma BeginKeepsInv(s: Sys, m: Mbx, call: Call)
    requires Inv(s) && Enabled(s, Begin(m, call))
    ensures Inv(BeginSpec(s, m, call))
  {
    var t := BeginSpec(s, m, call);
    assert BoxesOk(t) by { forall b ensures BoxOk(t, b) { assert BoxOk(s, b); } }
    assert MsgsOk(t) by { forall h | h in t.live ensures MsgOk(t, h) { assert MsgOk(s, h); } }
    assert SendersOk(t) by { forall x ensures SenderOk(t, x) { BeginSender(s, m, call, x); } }
    assert PrmsOk(t) by { forall p ensures PrmOk(t, p) { BeginPrm(s, m, call, p); } }
  }

  lemma BeginSender(s: Sys, m: Mbx, call: Call, x: Mbx)
    requires Inv(s) && Enabled(s, Begin(m, call))
    ensures SenderOk(BeginSpec(s, m, call), x)
  {
    var t := BeginSpec(s, m, call);
    assert SenderOk(s, x);
    if x != m && Snd(s, x).Busy? {
      assert Snd(t, x) == Snd(s, x);
      forall i | 0 <= i < |Snd(t, x).sent| ensures SlotOk(t, x, Snd(t, x), i) {
        assert SlotOk(s, x, Snd(s, x), i);
      }
    }
  }

  lemma BeginSenders(s: Sys, m: Mbx, call: Call, x: Mbx)
    ensures Snd(BeginSpec(s, m, call), x) == if x == m then Busy(call, [], [], [], SOK) else Snd(s, x)
  {
  }

  lemma BeginPrms(s: Sys, m: Mbx, call: Call)
    ensures BeginSpec(s, m, call).prms
            == if call.freePrm && call.prm.Some? then s.prms[call.prm.value := ByCall(m)] else s.prms
  {
  }

  lemma BeginOwned(s: Sys, m: Mbx, call: Call, p: Prm)
    requires Inv(s) && Enabled(s, Begin(m, call))
    ensures var t := BeginSpec(s, m, call);
            var mine := call.freePrm && call.prm == Some(p);
            && (forall o :: Owned(t, p, o) <==> Owned(s, p, o) || (mine && o == ByCall(m)))
            && (mine ==> p !in s.prms)
            && (forall x :: CallOwns(t, x, p) <==> if x == m then mine else CallOwns(s, x, p))
  {
    var t, mine := BeginSpec(s, m, call), call.freePrm && call.prm == Some(p);
    BeginPrms(s, m, call);
    forall x ensures CallOwns(t, x, p) <==> if x == m then mine else CallOwns(s, x, p) { BeginSenders(s, m, call, x); }
  }

  lemma BeginPrm(s: Sys, m: Mbx, call: Call, p: Prm)
    requires Inv(s) && Enabled(s, Begin(m, call))
    ensures PrmOk(BeginSpec(s, m, call), p)
  {
    var t := BeginSpec(s, m, call);
    assert PrmOk(s, p) && CallOwns(s, m, p) == Owned(s, p, ByCall(m));
    BeginOwned(s, m, call, p);
    forall x ensures CallOwns(t, x, p) <==> Owned(t, p, ByCall(x)) {
      assert CallOwns(s, x, p) <==> Owned(s, p, ByCall(x));
    }
    forall h ensures MsgOwns(t, h, p) <==> Owned(t, p, ByMsg(h)) {
      assert MsgOwns(s, h, p) <==> Owned(s, p, ByMsg(h));
    }
  }

  // ----- sending -----

  lemma SendKeepsInv(s: Sys, m: Mbx, h: Handle)
    requires Inv(s) && Enabled(s, Send(m, h))
    ensures Inv(SendSpec(s, m, h))
  {
    var t := SendSpec(s, m, h);
    assert BoxesOk(t) by { forall b ensures BoxOk(t, b) { SendBox(s, m, h, b); } }
    assert MsgsOk(t) by { forall x | x in t.live ensures MsgOk(t, x) { SendMsg(s, m, h, x); } }
    assert SendersOk(t) by { forall x ensures SenderOk(t, x) { SendSender(s, m, h, x); } }
    assert PrmsOk(t) by { forall p ensures PrmOk(t, p) { SendPrm(s, m, h, p); } }
  }

  /** A handle that was in no queue is put at the end of one. */
  lemma EnqueueBox(s: Sys, t: Sys, h: Handle, msg: Msg, at: Box, b: Box)
    requires BoxOk(s, b) && (h in s.live ==> s.live[h].at == InHand)
    requires t.live == Enqueue(s, h, msg, at).live && t.boxes == Enqueue(s, h, msg, at).boxes
    ensures BoxOk(t, b)
  {
    assert Q(t, b) == if b == at then Q(s, b) + [h] else Q(s, b);
  }

  lemma SendBox(s: Sys, m: Mbx, h: Handle, b: Box)
    requires Inv(s) && Enabled(s, Send(m, h))
    ensures BoxOk(SendSpec(s, m, h), b)
  {
    var c := Snd(s, m).call;
    var to := c.targets[|Snd(s, m).sent|];
    var msg := Msg(to, Some(m), c.prm, SOK, c.cmd, c.waitAck, c.freePrm, s.next, |Snd(s, m).sent|, InHand);
    assert BoxOk(s, b);
    EnqueueBox(s, SendSpec(s, m, h), h, msg, Rcv(to), b);
  }

  lemma SendMsg(s: Sys, m: Mbx, h: Handle, x: Handle)
    requires Inv(s) && Enabled(s, Send(m, h)) && x in SendSpec(s, m, h).live
    ensures MsgOk(SendSpec(s, m, h), x)
  {
    var t := SendSpec(s, m, h);
    assert SenderOk(s, m);
    if x != h {
      assert MsgOk(s, x) && t.live[x] == s.live[x];
    }
  }

  lemma SendSender(s: Sys, m: Mbx, h: Handle, x: Mbx)
    requires Inv(s) && Enabled(s, Send(m, h))
    ensures SenderOk(SendSpec(s, m, h), x)
  {
    var t := SendSpec(s, m, h);
    var b, b1 := Snd(s, x), Snd(t, x);
    assert SenderOk(s, x);
    if b1.Busy? {
      if x == m { SendCall(s, m, h); }
      forall i | 0 <= i < |b1.sent| ensures SlotOk(t, x, b1, i) {
        if i < |b.sent| { assert SlotOk(s, x, b, i); }
      }
    }
  }

  /** The new handle differs from the earlier ones, which are all still live. */
  lemma SendCall(s: Sys, m: Mbx, h: Handle)
    requires Inv(s) && Enabled(s, Send(m, h)) && Snd(SendSpec(s, m, h), m).Busy?
    ensures CallOk(SendSpec(s, m, h), m, Snd(SendSpec(s, m, h), m))
  {
    var b, b1 := Snd(s, m), Snd(SendSpec(s, m, h), m);
    assert SenderOk(s, m);
    assert b1.sent[|b.sent|] == h && |b.sent| !in b1.got;
    forall i | 0 <= i < |b.sent| && b.call.waitAck ensures b.sent[i] != h { assert SlotOk(s, m, b, i); }
  }

  lemma SendPrm(s: Sys, m: Mbx, h: Handle, p: Prm)
    requires Inv(s) && Enabled(s, Send(m, h))
    ensures PrmOk(SendSpec(s, m, h), p)
  {
    var t := SendSpec(s, m, h);
    assert PrmOk(s, p) && SenderOk(s, m);
    assert CallOwns(s, m, p) <==> Owned(s, p, ByCall(m));
    forall x ensures CallOwns(t, x, p) <==> Owned(t, p, ByCall(x)) {
      assert CallOwns(s, x, p) <==> Owned(s, p, ByCall(x));
    }
    forall x ensures MsgOwns(t, x, p) <==> Owned(t, p, ByMsg(x)) {
      assert MsgOwns(s, x, p) <==> Owned(s, p, ByMsg(x));
    }
  }

  lemma SendAnonKeepsInv(s: Sys, to: Mbx, cmd: int, prm: Option<Prm>, freePrm: bool, h: Handle)
    requires Inv(s) && Enabled(s, SendAnon(to, cmd, prm, freePrm, h))
    ensures Inv(SendAnonSpec(s, to, cmd, prm, freePrm, h))
  {
    var t := SendAnonSpec(s, to, cmd, prm, freePrm, h);
    var msg := Msg(to, None, prm, SOK, cmd, false, freePrm, s.next, 0, InHand);
    assert BoxesOk(t) by {
      forall b ensures BoxOk(t, b) { assert BoxOk(s, b); EnqueueBox(s, t, h, msg, Rcv(to), b); }
    }
    assert MsgsOk(t) by {
      forall x | x in t.live ensures MsgOk(t, x) { if x != h { assert MsgOk(s, x) && t.live[x] == s.live[x]; } }
    }
    assert SendersOk(t) by {
      forall x ensures SenderOk(t, x) {
        assert SenderOk(s, x);
        SameSender(s, t, x, h);
      }
    }
    assert PrmsOk(t) by {
      forall p ensures PrmOk(t, p) { SendAnonPrm(s, to, cmd, prm, freePrm, h, p); }
    }
  }

  /** A sender is unaffected by what happens to a message it does not wait for. */
  lemma SameSender(s: Sys, t: Sys, m: Mbx, h: Handle)
    requires SenderOk(s, m) && Snd(t, m) == Snd(s, m) && s.next <= t.next && s.ackLog == t.ackLog
    requires forall x :: x in s.live && x != h ==> x in t.live && t.live[x] == s.live[x]
    requires h in s.live && s.live[h].waitAck && s.live[h].from == Some(m) ==>
               h in t.live && t.live[h] == s.live[h].(at := t.live[h].at)
    ensures SenderOk(t, m)
  {
    var b := Snd(s, m);
    if b.Busy? {
      forall i | 0 <= i < |b.sent| ensures SlotOk(t, m, b, i) {
        assert SlotOk(s, m, b, i);
        var x := b.sent[i];
        if b.call.waitAck && i !in b.got && x != h { assert t.live[x] == s.live[x]; }
      }
    }
  }

  lemma SendAnonPrm(s: Sys, to: Mbx, cmd: int, prm: Option<Prm>, freePrm: bool, h: Handle, p: Prm)
    requires Inv(s) && Enabled(s, SendAnon(to, cmd, prm, freePrm, h))
    ensures PrmOk(SendAnonSpec(s, to, cmd, prm, freePrm, h), p)
  {
    var t := SendAnonSpec(s, to, cmd, prm, freePrm, h);
    assert PrmOk(s, p);
    var mine := freePrm && prm == Some(p);
    assert forall o :: Owned(t, p, o) <==> if mine then o == ByMsg(h) else Owned(s, p, o);
    forall x ensures CallOwns(t, x, p) <==> Owned(t, p, ByCall(x)) {
      assert CallOwns(s, x, p) <==> Owned(s, p, ByCall(x));
    }
    forall x ensures MsgOwns(t, x, p) <==> Owned(t, p, ByMsg(x)) {
      assert MsgOwns(s, x, p) <==> Owned(s, p, ByMsg(x));
    }
  }

  // ----- receiving and answering -----

  /** The first entry of a queue leaves it, to a thread or to be freed. */
  lemma DequeueBox(s: Sys, t: Sys, at: Box, b: Box)
    requires BoxOk(s, at) && BoxOk(s, b) && Q(s, at) != []
    requires t.boxes == s.boxes[at := Q(s, at)[1..]]
    requires t.live == s.live - {Q(s, at)[0]}
             || t.live == s.live[Q(s, at)[0] := s.live[Q(s, at)[0]].(at := InHand)]
    ensures BoxOk(t, b)
  {
    assert Q(t, b) == if b == at then Q(s, b)[1..] else Q(s, b);
  }

  lemma ReceiveKeepsInv(s: Sys, m: Mbx)
    requires Inv(s) && Enabled(s, Receive(m))
    ensures Inv(ReceiveSpec(s, m))
  {
    var t := ReceiveSpec(s, m);
    var h := Q(s, Rcv(m))[0];
    assert BoxOk(s, Rcv(m));
    assert BoxesOk(t) by { forall b ensures BoxOk(t, b) { assert BoxOk(s, b); DequeueBox(s, t, Rcv(m), b); } }
    assert MsgsOk(t) by { forall x | x in t.live ensures MsgOk(t, x) { assert MsgOk(s, x); } }
    assert SendersOk(t) by { forall x ensures SenderOk(t, x) { assert SenderOk(s, x); SameSender(s, t, x, h); } }
    assert PrmsOk(t) by { forall p ensures PrmOk(t, p) { SamePrm(s, t, p); } }
  }

  lemma SamePrm(s: Sys, t: Sys, p: Prm)
    requires PrmOk(s, p) && s.snd == t.snd && s.prms == t.prms
    requires forall h :: MsgOwns(t, h, p) <==> MsgOwns(s, h, p)
    ensures PrmOk(t, p)
  {
    forall x ensures CallOwns(t, x, p) <==> Owned(t, p, ByCall(x)) {
      assert CallOwns(s, x, p) <==> Owned(s, p, ByCall(x));
    }
    forall x ensures MsgOwns(t, x, p) <==> Owned(t, p, ByMsg(x)) {
      assert MsgOwns(s, x, p) <==> Owned(s, p, ByMsg(x));
    }
  }

  lemma AckKeepsInv(s: Sys, h: Handle, status: int)
    requires Inv(s) && Enabled(s, AckOrFree(h, status)) && s.live[h].waitAck
    ensures Inv(AckOrFreeSpec(s, h, status))
  {
    var t := AckOrFreeSpec(s, h, status);
    var msg := s.live[h].(status := status);
    assert MsgOk(s, h);
    assert BoxesOk(t) by {
      forall b ensures BoxOk(t, b) { assert BoxOk(s, b); EnqueueBox(s, t, h, msg, Ack(msg.from.value), b); }
    }
    assert MsgsOk(t) by { forall x | x in t.live ensures MsgOk(t, x) { AckMsg(s, h, status, x); } }
    assert SendersOk(t) by { forall x ensures SenderOk(t, x) { AckSender(s, h, status, x); } }
    assert PrmsOk(t) by { forall p ensures PrmOk(t, p) { assert PrmOk(s, p); SamePrm(s, t, p); } }
    forall k | 0 <= k < |t.results| ensures ResultOk(t.ackLog, t.results[k]) {
      assert ResultOk(s.ackLog, s.results[k]);
      FoldStable(s.ackLog, msg.id, status, s.results[k].order);
    }
  }

  lemma AckMsg(s: Sys, h: Handle, status: int, x: Handle)
    requires Inv(s) && Enabled(s, AckOrFree(h, status)) && s.live[h].waitAck && x in s.live
    ensures MsgOk(AckOrFreeSpec(s, h, status), x)
  {
    assert MsgOk(s, h) && MsgOk(s, x);
  }

  lemma AckSender(s: Sys, h: Handle, status: int, x: Mbx)
    requires Inv(s) && Enabled(s, AckOrFree(h, status)) && s.live[h].waitAck
    ensures SenderOk(AckOrFreeSpec(s, h, status), x)
  {
    var t, b := AckOrFreeSpec(s, h, status), Snd(s, x);
    assert SenderOk(s, x) && Snd(t, x) == b;
    if b.Busy? {
      AckCall(s, h, status, x);
      forall i | 0 <= i < |b.sent| ensures SlotOk(t, x, b, i) { AckSlot(s, h, status, x, i); }
    }
  }

  lemma AckCall(s: Sys, h: Handle, status: int, x: Mbx)
    requires Inv(s) && Enabled(s, AckOrFree(h, status)) && s.live[h].waitAck && Snd(s, x).Busy?
    ensures CallOk(AckOrFreeSpec(s, h, status), x, Snd(s, x))
  {
    var b := Snd(s, x);
    assert SenderOk(s, x) && MsgOk(s, h);
    FoldStable(s.ackLog, s.live[h].id, status, Order(b.ids, b.got));
  }

  lemma AckSlot(s: Sys, h: Handle, status: int, x: Mbx, i: nat)
    requires Inv(s) && Enabled(s, AckOrFree(h, status)) && s.live[h].waitAck
    requires Snd(s, x).Busy? && i < |Snd(s, x).sent| == |Snd(s, x).ids|
    ensures SlotOk(AckOrFreeSpec(s, h, status), x, Snd(s, x), i)
  {
    assert SenderOk(s, x) && SlotOk(s, x, Snd(s, x), i) && MsgOk(s, h);
  }

  /** An answer to another message leaves a fold as it is. */
  lemma {:induction false} FoldStable(log: map<int, int>, id: int, status: int, order: seq<int>)
    requires id !in log && forall x :: x in order ==> x in log
    ensures Fold(log[id := status], order) == Fold(log, order)
  {
    if order != [] {
      FoldStable(log, id, status, order[..|order| - 1]);
    }
  }

  lemma FreeKeepsInv(s: Sys, h: Handle, status: int)
    requires Inv(s) && Enabled(s, AckOrFree(h, status)) && !s.live[h].waitAck
    ensures Inv(AckOrFreeSpec(s, h, status))
  {
    var t := AckOrFreeSpec(s, h, status);
    if s.live[h].freePrm && s.live[h].prm.Some? { OwnedByMessage(s, h); }
    FreeShape(s, h, status);
    assert BoxesOk(t) by {
      forall b ensures BoxOk(t, b) { assert BoxOk(s, b); assert Q(t, b) == Q(s, b); }
    }
    assert MsgsOk(t) by { forall x | x in t.live ensures MsgOk(t, x) { assert MsgOk(s, x); } }
    assert SendersOk(t) by { forall x ensures SenderOk(t, x) { assert SenderOk(s, x); SameSender(s, t, x, h); } }
    assert PrmsOk(t) by { forall p ensures PrmOk(t, p) { FreePrmOk(s, h, status, p); } }
  }

  /** An answer to a message nobody waits for frees it and its parameter. */
  lemma FreeShape(s: Sys, h: Handle, status: int)
    requires h in s.live && !s.live[h].waitAck
    requires s.live[h].freePrm && s.live[h].prm.Some? ==> s.live[h].prm.value in s.prms
    ensures AckOrFreeSpec(s, h, status)
            == s.(hands := s.hands - {h}, live := s.live - {h},
                  prms := if s.live[h].freePrm && s.live[h].prm.Some? then s.prms - {s.live[h].prm.value} else s.prms)
  {
  }

  lemma FreeOwned(s: Sys, h: Handle, status: int, p: Prm)
    requires Inv(s) && Enabled(s, AckOrFree(h, status)) && !s.live[h].waitAck
    ensures var t := AckOrFreeSpec(s, h, status);
            t.snd == s.snd && t.live == s.live - {h}
            && forall o :: Owned(t, p, o) <==> Owned(s, p, o) && o != ByMsg(h)
  {
    if s.live[h].freePrm && s.live[h].prm.Some? { PrmOfMessage(s, h); }
    FreeShape(s, h, status);
    assert PrmOk(s, p);
    assert MsgOwns(s, h, p) <==> Owned(s, p, ByMsg(h));
    if s.live[h].freePrm && s.live[h].prm.Some? { OwnedByMessage(s, h); }
  }

  lemma OwnedByMessage(s: Sys, h: Handle)
    requires Inv(s) && h in s.live && !s.live[h].waitAck && s.live[h].freePrm && s.live[h].prm.Some?
    ensures Owned(s, s.live[h].prm.value, ByMsg(h))
  {
    assert PrmOk(s, s.live[h].prm.value) && MsgOwns(s, h, s.live[h].prm.value);
  }

  lemma FreePrmOk(s: Sys, h: Handle, status: int, p: Prm)
    requires Inv(s) && Enabled(s, AckOrFree(h, status)) && !s.live[h].waitAck
    ensures PrmOk(AckOrFreeSpec(s, h, status), p)
  {
    var t := AckOrFreeSpec(s, h, status);
    FreeOwned(s, h, status, p);
    assert PrmOk(s, p);
    forall x ensures CallOwns(t, x, p) <==> Owned(t, p, ByCall(x)) {
      assert CallOwns(s, x, p) <==> Owned(s, p, ByCall(x));
    }
    forall x ensures MsgOwns(t, x, p) <==> Owned(t, p, ByMsg(x)) {
      assert MsgOwns(s, x, p) <==> Owned(s, p, ByMsg(x));
    }
  }

  /** The parameter of a message that is being handled, or is still queued for its
      receiver, is allocated: its owner is that message or the call that waits. */
  lemma PrmOfMessage(s: Sys, h: Handle)
    requires Inv(s) && h in s.live && s.live[h].freePrm && s.live[h].prm.Some?
    ensures s.live[h].prm.value in s.prms
  {
    var msg := s.live[h];
    assert MsgOk(s, h) && PrmOk(s, msg.prm.value);
    if msg.waitAck {
      assert CallOwns(s, msg.from.value, msg.prm.value);
    } else {
      assert MsgOwns(s, h, msg.prm.value);
    }
  }

  // ----- collecting acknowledgements -----

  /** The first acknowledgement in a sender's queue: it answers a message on the
      sender's list that is not yet acknowledged, so it is found at its slot. */
  lemma AckIsExpected(s: Sys, m: Mbx)
    requires Inv(s) && Q(s, Ack(m)) != []
    ensures var h, b := Q(s, Ack(m))[0], Snd(s, m);
            && b.Busy? && h in s.live && s.live[h].waitAck && s.live[h].at == In(Ack(m))
            && Outstanding(s, h, s.live[h]) && s.live[h].from == Some(m)
            && s.live[h].id in s.ackLog && s.ackLog[s.live[h].id] == s.live[h].status
            && Find(b.sent, h) == s.live[h].slot
  {
    var h, b := Q(s, Ack(m))[0], Snd(s, m);
    assert BoxOk(s, Ack(m)) && MsgOk(s, h) && SenderOk(s, m);
    var i := Find(b.sent, h);
    assert b.sent[i] == h == b.sent[s.live[h].slot];
  }

  /** The sender after taking the acknowledgement of message i. */
  function Advanced(b: Sender, i: nat, status: int): Sender
    requires b.Busy?
  {
    b.(got := b.got + [i], ret := Collected(b.ret, status))
  }

  lemma OneTargetDone(b: Sender, i: nat, status: int)
    requires b.Busy? && ValidCall(b.call) && |b.sent| == |b.call.targets| && i < |b.sent|
    ensures b.call.broadcast || AllGot(Advanced(b, i, status))
  {
    assert (b.got + [i])[|b.got|] == i;
  }

  /** What collecting an acknowledgement does to a state in order. */
  ghost predicate CollectShape(s: Sys, m: Mbx, t: Sys)
    requires Snd(s, m).Busy? && Q(s, Ack(m)) != []
  {
    var b, h := Snd(s, m), Q(s, Ack(m))[0];
    && h in s.live
    && var b1 := Advanced(b, s.live[h].slot, s.live[h].status);
    var all := AllGot(b1);
    && t.live == s.live - {h} && t.boxes == s.boxes[Ack(m) := Q(s, Ack(m))[1..]]
    && t.snd == s.snd[m := if all then Idle else b1]
    && t.prms == (if all && b.call.freePrm && b.call.prm.Some? then s.prms - {b.call.prm.value} else s.prms)
    && t.results == (if all then s.results + [Result(m, b.ids, Order(b.ids, b1.got), b1.ret, b.call)] else s.results)
    && t.hands == s.hands && t.next == s.next && t.ackLog == s.ackLog && t.ackBy == s.ackBy && !t.fault
  }

  /** The facts about a sender and the acknowledgement it takes that decide the
      code's branches. */
  ghost predicate Expected(s: Sys, m: Mbx) {
    && !s.fault && Q(s, Ack(m)) != [] && Snd(s, m).Busy?
    && var b, h := Snd(s, m), Q(s, Ack(m))[0];
    && h in s.live
    && Find(b.sent, h) == s.live[h].slot < |b.sent|
    && s.live[h].freePrm == b.call.freePrm && s.live[h].prm == b.call.prm
    && (b.call.freePrm && b.call.prm.Some? ==> b.call.prm.value in s.prms)
    && (!b.call.broadcast ==> b.ret == SOK && AllGot(Advanced(b, s.live[h].slot, s.live[h].status)))
  }

  lemma CollectIsExpected(s: Sys, m: Mbx)
    requires Inv(s) && Enabled(s, Collect(m))
    ensures Expected(s, m)
  {
    AckIsExpected(s, m);
    var b, h := Snd(s, m), Q(s, Ack(m))[0];
    assert SenderOk(s, m);
    OneTargetDone(b, s.live[h].slot, s.live[h].status);
    if b.call.freePrm && b.call.prm.Some? {
      assert PrmOk(s, b.call.prm.value);
      assert CallOwns(s, m, b.call.prm.value) && Owned(s, b.call.prm.value, ByCall(m));
    }
  }

  lemma CollectHasShape(s: Sys, m: Mbx)
    requires Expected(s, m)
    ensures CollectShape(s, m, CollectSpec(s, m))
  {
    if Snd(s, m).call.broadcast { CollectBroadcast(s, m); } else { CollectSingle(s, m); }
  }

  lemma CollectBroadcast(s: Sys, m: Mbx)
    requires Expected(s, m) && Snd(s, m).call.broadcast
    ensures CollectShape(s, m, CollectSpec(s, m))
  {
    var b, h, boxes := Snd(s, m), Q(s, Ack(m))[0], s.boxes[Ack(m) := Q(s, Ack(m))[1..]];
    var b1 := Advanced(b, s.live[h].slot, s.live[h].status);
    var s2 := s.(boxes := boxes, live := s.live - {h});
    assert FreeHandle(s.(boxes := boxes), h) == s2;
    assert CollectSpec(s, m) == if AllGot(b1) then Finish(if b.call.freePrm then FreePrm(s2, b.call.prm) else s2, m, b1)
                                else s2.(snd := s2.snd[m := b1]);
  }

  lemma CollectSingle(s: Sys, m: Mbx)
    requires Expected(s, m) && !Snd(s, m).call.broadcast
    ensures CollectShape(s, m, CollectSpec(s, m))
  {
    var b, h := Snd(s, m), Q(s, Ack(m))[0];
    var s1, msg := s.(boxes := s.boxes[Ack(m) := Q(s, Ack(m))[1..]]), s.live[h];
    assert CollectSpec(s, m) == Finish(FreeMsg(s1, h), m, Advanced(b, msg.slot, msg.status));
  }

  lemma CollectKeepsInv(s: Sys, m: Mbx)
    requires Inv(s) && Enabled(s, Collect(m))
    ensures Inv(CollectSpec(s, m))
  {
    var t := CollectSpec(s, m);
    CollectIsExpected(s, m);
    CollectHasShape(s, m);
    AckIsExpected(s, m);
    assert BoxesOk(t) by {
      assert BoxOk(s, Ack(m));
      forall b ensures BoxOk(t, b) { assert BoxOk(s, b); DequeueBox(s, t, Ack(m), b); }
    }
    assert MsgsOk(t) by { forall x | x in t.live ensures MsgOk(t, x) { CollectMsg(s, m, t, x); } }
    assert SendersOk(t) by { forall x ensures SenderOk(t, x) { CollectSender(s, m, t, x); } }
    assert PrmsOk(t) by { forall p ensures PrmOk(t, p) { CollectPrm(s, m, t, p); } }
    CollectResults(s, m, t);
  }

  lemma CollectMsg(s: Sys, m: Mbx, t: Sys, x: Handle)
    requires Inv(s) && Enabled(s, Collect(m)) && CollectShape(s, m, t) && x in t.live
    ensures MsgOk(t, x)
  {
    AckIsExpected(s, m);
    var b, h := Snd(s, m), Q(s, Ack(m))[0];
    assert MsgOk(s, x) && x != h && s.live[x].id != s.live[h].id;
    if s.live[x].waitAck && s.live[x].from == Some(m) {
      assert s.live[x].slot !in b.got + [s.live[h].slot];
    }
  }

  lemma CollectSender(s: Sys, m: Mbx, t: Sys, x: Mbx)
    requires Inv(s) && Enabled(s, Collect(m)) && CollectShape(s, m, t)
    ensures SenderOk(t, x)
  {
    AckIsExpected(s, m);
    var b, h := Snd(s, m), Q(s, Ack(m))[0];
    assert SenderOk(s, x);
    if x != m {
      SameSender(s, t, x, h);
    } else if Snd(t, m).Busy? {
      CollectCall(s, m, t);
      forall i | 0 <= i < |b.sent| ensures SlotOk(t, m, Snd(t, m), i) { CollectSlot(s, m, t, i); }
    }
  }

  lemma CollectSlot(s: Sys, m: Mbx, t: Sys, i: nat)
    requires Inv(s) && Enabled(s, Collect(m)) && CollectShape(s, m, t) && Snd(t, m).Busy?
    requires i < |Snd(s, m).sent| == |Snd(s, m).ids|
    ensures SlotOk(t, m, Snd(t, m), i)
  {
    AckIsExpected(s, m);
    assert SenderOk(s, m) && SlotOk(s, m, Snd(s, m), i);
  }

  /** The fold grows by the answer just collected. */
  lemma OrderGrows(log: map<int, int>, ids: seq<int>, got: seq<nat>, i: nat)
    requires i < |ids| && ids[i] in log
    ensures Order(ids, got + [i]) == Order(ids, got) + [ids[i]]
    ensures Fold(log, Order(ids, got + [i])) == Collected(Fold(log, Order(ids, got)), log[ids[i]])
  {
    assert (got + [i])[..|got|] == got;
    assert (Order(ids, got) + [ids[i]])[..|got|] == Order(ids, got);
  }

  lemma AdvancedOk(s: Sys, m: Mbx, b: Sender, i: nat, status: int)
    requires b.Busy? && CallOk(s, m, b) && |b.sent| == |b.call.targets| && b.call.broadcast
    requires i < |b.sent| && i !in b.got && b.ids[i] in s.ackLog && s.ackLog[b.ids[i]] == status
    requires !AllGot(Advanced(b, i, status))
    ensures CallOk(s, m, Advanced(b, i, status))
  {
    OrderGrows(s.ackLog, b.ids, b.got, i);
    GotGrows(s.ackLog, b.ids, b.got, i);
  }

  lemma GotGrows(log: map<int, int>, ids: seq<int>, got: seq<nat>, i: nat)
    requires forall k :: 0 <= k < |got| ==> got[k] < |ids| && ids[got[k]] in log
    requires forall j, k :: 0 <= j < k < |got| ==> got[j] != got[k]
    requires i < |ids| && i !in got && ids[i] in log
    ensures var r := got + [i];
            && (forall k :: 0 <= k < |r| ==> r[k] < |ids| && ids[r[k]] in log)
            && forall j, k :: 0 <= j < k < |r| ==> r[j] != r[k]
  {
    var r := got + [i];
    forall j, k | 0 <= j < k < |r| ensures r[j] != r[k] {
      if k == |got| { assert got[j] in got; }
    }
  }

  lemma CollectCall(s: Sys, m: Mbx, t: Sys)
    requires Inv(s) && Enabled(s, Collect(m)) && CollectShape(s, m, t) && Snd(t, m).Busy?
    ensures CallOk(t, m, Snd(t, m))
  {
    AckIsExpected(s, m);
    var b, h := Snd(s, m), Q(s, Ack(m))[0];
    assert SenderOk(s, m);
    OneTargetDone(b, s.live[h].slot, s.live[h].status);
    AdvancedOk(s, m, b, s.live[h].slot, s.live[h].status);
  }

  lemma CollectPrm(s: Sys, m: Mbx, t: Sys, p: Prm)
    requires Inv(s) && Enabled(s, Collect(m)) && CollectShape(s, m, t)
    ensures PrmOk(t, p)
  {
    AckIsExpected(s, m);
    var h := Q(s, Ack(m))[0];
    assert PrmOk(s, p) && CallOwns(s, m, p) == Owned(s, p, ByCall(m));
    forall x ensures CallOwns(t, x, p) <==> Owned(t, p, ByCall(x)) {
      assert CallOwns(s, x, p) <==> Owned(s, p, ByCall(x));
    }
    forall x ensures MsgOwns(t, x, p) <==> Owned(t, p, ByMsg(x)) {
      assert MsgOwns(s, x, p) <==> Owned(s, p, ByMsg(x));
      assert !MsgOwns(s, h, p);
    }
  }

  /** Positions that cover the list, each once, put its serial numbers in order. */
  lemma OrderPermutes(ids: seq<int>, got: seq<nat>)
    requires forall i, j :: 0 <= i < j < |ids| ==> ids[i] < ids[j]
    requires forall k :: 0 <= k < |got| ==> got[k] < |ids|
    requires forall j, k :: 0 <= j < k < |got| ==> got[j] != got[k]
    requires forall i :: 0 <= i < |ids| ==> i in got
    ensures var r := Order(ids, got);
            && (forall x :: x in r <==> x in ids)
            && (forall j, k :: 0 <= j < k < |r| ==> r[j] != r[k])
  {
    var r := Order(ids, got);
    forall i | 0 <= i < |ids| ensures ids[i] in r {
      assert i in got;
      var j :| 0 <= j < |got| && got[j] == i;
      assert r[j] == ids[i];
    }
  }

  /** Serial numbers grow, and each position was acknowledged once. */
  ghost predicate Complete(log: map<int, int>, ids: seq<int>, got: seq<nat>) {
    && ids != [] && (forall j, k :: 0 <= j < k < |ids| ==> ids[j] < ids[k])
    && (forall k :: 0 <= k < |got| ==> got[k] < |ids| && ids[got[k]] in log)
    && (forall j, k :: 0 <= j < k < |got| ==> got[j] != got[k])
    && (forall i :: 0 <= i < |ids| ==> i in got)
  }

  lemma CallComplete(s: Sys, m: Mbx, b: Sender, i: nat, status: int)
    requires b.Busy? && CallOk(s, m, b) && |b.sent| == |b.call.targets|
    requires i < |b.sent| && i !in b.got && b.ids[i] in s.ackLog && AllGot(Advanced(b, i, status))
    ensures Complete(s.ackLog, b.ids, b.got + [i])
  {
  }

  /** The last acknowledgement completes the result. */
  lemma FinishedOk(log: map<int, int>, m: Mbx, ids: seq<int>, got: seq<nat>, call: Call)
    requires Complete(log, ids, got)
    ensures ResultOk(log, Result(m, ids, Order(ids, got), Fold(log, Order(ids, got)), call))
  {
    OrderPermutes(ids, got);
    forall i | 0 <= i < |ids| ensures ids[i] in log {
      assert i in got;
    }
  }

  /** The result of a call that the last acknowledgement completes. */
  lemma CollectedResult(s: Sys, m: Mbx)
    requires Inv(s) && Enabled(s, Collect(m))
    requires Expected(s, m) && AllGot(Advanced(Snd(s, m), s.live[Q(s, Ack(m))[0]].slot, s.live[Q(s, Ack(m))[0]].status))
    ensures var b, msg := Snd(s, m), s.live[Q(s, Ack(m))[0]];
            ResultOk(s.ackLog, Result(m, b.ids, Order(b.ids, b.got + [msg.slot]), Collected(b.ret, msg.status), b.call))
  {
    AckIsExpected(s, m);
    var b, msg := Snd(s, m), s.live[Q(s, Ack(m))[0]];
    assert SenderOk(s, m);
    OrderGrows(s.ackLog, b.ids, b.got, msg.slot);
    CallComplete(s, m, b, msg.slot, msg.status);
    FinishedOk(s.ackLog, m, b.ids, b.got + [msg.slot], b.call);
  }

  lemma CollectResults(s: Sys, m: Mbx, t: Sys)
    requires Inv(s) && Enabled(s, Collect(m)) && CollectShape(s, m, t)
    ensures ResultsOk(t)
  {
    CollectIsExpected(s, m);
    if AllGot(Advanced(Snd(s, m), s.live[Q(s, Ack(m))[0]].slot, s.live[Q(s, Ack(m))[0]].status)) {
      CollectedResult(s, m);
    }
  }

  // ----- all runs -----

  /** A sender with no call in progress has nothing in its ACK queue, so a flush
      and the branch for an acknowledgement of an old message find nothing. */
  lemma NoStaleAck(s: Sys, m: Mbx)
    requires Inv(s)
    ensures Snd(s, m).Idle? ==> Q(s, Ack(m)) == []
    ensures Snd(s, m).Busy? && Q(s, Ack(m)) != [] ==> Find(Snd(s, m).sent, Q(s, Ack(m))[0]) < |Snd(s, m).sent|
  {
    if Q(s, Ack(m)) != [] {
      AckIsExpected(s, m);
    }
  }

  lemma StepKeepsInv(s: Sys, st: Step)
    requires Inv(s) && Enabled(s, st)
    ensures Inv(Next(s, st))
  {
    match st
    case Begin(m, call) => BeginKeepsInv(s, m, call);
    case Send(m, h) => SendKeepsInv(s, m, h);
    case SendAnon(to, cmd, prm, freePrm, h) => SendAnonKeepsInv(s, to, cmd, prm, freePrm, h);
    case Receive(m) => ReceiveKeepsInv(s, m);
    case ReadPrm(h) => if s.live[h].freePrm && s.live[h].prm.Some? { PrmOfMessage(s, h); }
    case AckOrFree(h, status) =>
      if s.live[h].waitAck { AckKeepsInv(s, h, status); } else { FreeKeepsInv(s, h, status); }
    case Collect(m) => CollectKeepsInv(s, m);
    case FlushAck(m) => NoStaleAck(s, m);
  }

  function Start(): Sys { Sys(map[], map[], map[], map[], map[], 0, map[], map[], [], false) }

  ghost predicate IsRun(s: Sys, steps: seq<Step>)
    decreases |steps|
  {
    steps != [] ==> Enabled(s, steps[0]) && IsRun(Next(s, steps[0]), steps[1..])
  }

  ghost function After(s: Sys, steps: seq<Step>): Sys
    requires IsRun(s, steps)
    decreases |steps|
  {
    if steps == [] then s else After(Next(s, steps[0]), steps[1..])
  }

  /** Whatever the threads and the allocator do, no handle or parameter is touched
      or freed when it is not allocated, and the rest of the invariant holds. */
  lemma {:induction false} MailboxInvariant(s: Sys, steps: seq<Step>)
    requires Inv(s) && IsRun(s, steps)
    ensures Inv(After(s, steps))
    decreases |steps|
  {
    if steps != [] {
      StepKeepsInv(s, steps[0]);
      MailboxInvariant(Next(s, steps[0]), steps[1..]);
    }
  }

  /** From the start, over every run: nothing freed was touched or freed again, and
      whoever still reads a message finds its parameter allocated. */
  lemma NeverTouchedAfterFree(steps: seq<Step>)
    requires IsRun(Start(), steps)
    ensures var s := After(Start(), steps);
            && !s.fault
            && (forall h :: h in s.hands ==> h in s.live)
            && (forall h :: h in s.live && s.live[h].freePrm && s.live[h].prm.Some? ==> s.live[h].prm.value in s.prms)
  {
    StartInv();
    MailboxInvariant(Start(), steps);
    var s := After(Start(), steps);
    forall h | h in s.live && s.live[h].freePrm && s.live[h].prm.Some? ensures s.live[h].prm.value in s.prms {
      PrmOfMessage(s, h);
    }
  }

  lemma StartInv()
    ensures Inv(Start())
  {
    var s := Start();
    forall b ensures BoxOk(s, b) { }
    forall m ensures SenderOk(s, m) { }
    forall p ensures PrmOk(s, p) { }
  }

  /** No call in progress, no message queued, no receiver still to answer. */
  ghost predicate Quiet(s: Sys) {
    && (forall m :: Snd(s, m).Idle?)
    && (forall b :: Q(s, b) == [])
    && s.hands == map[]
  }

  /** Every message and parameter is freed: in a quiet state none is allocated. */
  lemma NothingLeaks(steps: seq<Step>)
    requires IsRun(Start(), steps) && Quiet(After(Start(), steps))
    ensures var s := After(Start(), steps); s.live == map[] && s.prms == map[] && !s.fault
  {
    StartInv();
    MailboxInvariant(Start(), steps);
    var s := After(Start(), steps);
    forall b ensures forall h :: h in s.live ==> s.live[h].at != In(b) { assert BoxOk(s, b) && Q(s, b) == []; }
    forall h ensures h !in s.live {
      match if h in s.live then s.live[h].at else InHand
      case InHand =>
      case In(b) =>
    }
    assert s.live == map[];
    forall p ensures p !in s.prms { QuietPrm(s, p); }
  }

  lemma QuietPrm(s: Sys, p: Prm)
    requires PrmOk(s, p) && s.live == map[] && forall m :: Snd(s, m).Idle?
    ensures p !in s.prms
  {
    assert forall m :: !CallOwns(s, m, p) && !Owned(s, p, ByCall(m));
    assert forall h :: !MsgOwns(s, h, p) && !Owned(s, p, ByMsg(h));
    assert p in s.prms ==> Owned(s, p, s.prms[p]);
  }

  /** OK if every answer is, and else the first answer that is not. */
  ghost predicate FirstBad(log: map<int, int>, order: seq<int>, ret: int) {
    && (ret == SOK <==> forall k :: 0 <= k < |order| ==> Answer(log, order[k]) == SOK)
    && (ret != SOK ==> exists k :: 0 <= k < |order| && ret == Answer(log, order[k])
                                   && forall j :: 0 <= j < k ==> Answer(log, order[j]) == SOK)
  }

  lemma {:induction false} FoldFirstBad(log: map<int, int>, order: seq<int>)
    ensures FirstBad(log, order, Fold(log, order))
  {
    if order != [] {
      var front := order[..|order| - 1];
      FoldFirstBad(log, front);
      assert order == front + [order[|order| - 1]];
      if Fold(log, front) != SOK {
        var k :| 0 <= k < |front| && Fold(log, front) == Answer(log, front[k])
                 && forall j :: 0 <= j < k ==> Answer(log, front[j]) == SOK;
        assert order[k] == front[k];
      }
    }
  }

  /** A call that waits for acknowledgements returns only once each of its messages
      was answered, OK if all were and else the first status that was not, in the
      order the answers arrived; with one target exactly what it answered. */
  lemma WaitAckResult(steps: seq<Step>, k: nat)
    requires IsRun(Start(), steps) && k < |After(Start(), steps).results|
    ensures var s := After(Start(), steps);
            var r := s.results[k];
            && (forall x :: x in r.ids ==> x in s.ackLog)
            && (forall x :: x in r.order <==> x in r.ids)
            && (forall i, j :: 0 <= i < j < |r.order| ==> r.order[i] != r.order[j])
            && FirstBad(s.ackLog, r.order, r.ret)
            && (|r.ids| == 1 ==> r.ret == Answer(s.ackLog, r.ids[0]))
  {
    StartInv();
    MailboxInvariant(Start(), steps);
    var s := After(Start(), steps);
    var r := s.results[k];
    assert ResultOk(s.ackLog, r);
    FoldFirstBad(s.ackLog, r.order);
    if |r.ids| == 1 {
      OnlyAnswer(s.ackLog, r);
    }
  }

  lemma OnlyAnswer(log: map<int, int>, r: Result)
    requires ResultOk(log, r) && |r.ids| == 1
    ensures r.ret == Answer(log, r.ids[0])
  {
    var x := r.ids[0];
    assert x in r.ids && x in r.order;
    assert forall i :: 0 <= i < |r.order| ==> r.order[i] in r.ids;
    assert r.order[0] == r.order[|r.order| - 1];
    assert r.order == [x] && [x][..|[x]| - 1] == [];
    assert Fold(log, [x]) == Collected(Fold(log, []), Answer(log, x));
  }

  /** The answer a receiver gave is never replaced. */
  lemma {:induction false} AnswerIsFinal(s: Sys, st: Step, id: int)
    requires Inv(s) && Enabled(s, st) && id in s.ackLog
    ensures id in Next(s, st).ackLog && Next(s, st).ackLog[id] == s.ackLog[id]
  {
    match st
    case AckOrFree(h, _) => assert MsgOk(s, h);
    case Collect(m) => CollectIsExpected(s, m); CollectHasShape(s, m);
    case FlushAck(m) => NoStaleAck(s, m);
    case Begin(_, _) =>
    case Send(_, _) =>
    case SendAnon(_, _, _, _, _) =>
    case Receive(_) =>
    case ReadPrm(_) =>
  }

  /** A call has at most nine messages out, so an acknowledgement always finds
      room in the sender's queue and the receiver does not wait. */
  lemma AckNeverBlocks(s: Sys, h: Handle)
    requires Inv(s) && h in s.live && s.live[h].waitAck && s.live[h].at == InHand
    ensures s.live[h].from.Some? && |Q(s, Ack(s.live[h].from.value))| < BROADCAST_MAX < QUEUE_LEN
  {
    assert MsgOk(s, h);
    var m := s.live[h].from.value;
    var q, b := Q(s, Ack(m)), Snd(s, m);
    assert BoxOk(s, Ack(m)) && SenderOk(s, m);
    forall x | x in q ensures x in b.sent { assert MsgOk(s, x); }
    DistinctSize(q);
    SetSize(b.sent);
    SubsetSize(Elems(q), Elems(b.sent));
  }

  lemma {:induction false} SetSize(q: seq<int>)
    ensures |Elems(q)| <= |q|
  {
    if q != [] {
      SetSize(q[..|q| - 1]);
      assert Elems(q) == Elems(q[..|q| - 1]) + {q[|q| - 1]};
    }
  }

  /** Positions of a call's list whose acknowledgement is still to come. */
  ghost function Unacknowledged(b: Sender): set<nat>
    requires b.Busy?
  {
    set i | 0 <= i < |b.sent| && i !in b.got
  }

  /** Every acknowledgement taken is of a message that was still waited for, and
      the call ends with the last of them. */
  lemma CollectShrinks(s: Sys, m: Mbx)
    requires Inv(s) && Enabled(s, Collect(m))
    ensures var b, b1 := Snd(s, m), Snd(CollectSpec(s, m), m);
            exists i :: i in Unacknowledged(b) && b.sent[i] == Q(s, Ack(m))[0]
              && if Unacknowledged(b) == {i} then b1.Idle?
                 else b1.Busy? && Unacknowledged(b1) == Unacknowledged(b) - {i}
  {
    AckIsExpected(s, m);
    CollectIsExpected(s, m);
    CollectHasShape(s, m);
    var b, h := Snd(s, m), Q(s, Ack(m))[0];
    var i := s.live[h].slot;
    var b1 := Advanced(b, i, s.live[h].status);
    assert Unacknowledged(b1) == Unacknowledged(b) - {i};
    assert i in Unacknowledged(b);
    assert AllGot(b1) <==> Unacknowledged(b1) == {} by {
      if !AllGot(b1) { var j :| 0 <= j < |b1.sent| && j !in b1.got; assert j in Unacknowledged(b1); }
    }
    assert Unacknowledged(b1) == {} <==> Unacknowledged(b) == {i};
  }
}
