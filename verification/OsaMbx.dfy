/** The acknowledged mailboxes of osa_mbx.c over the message queues of osa_msgq.c,
    as a state machine whose steps are what the code does between two lock
    operations. Handles and parameters are heap addresses: a freed one may be
    handed out again by the allocator. */
module OsaMbx {
  import opened Wrappers

  type Handle = int
  type Prm = int
  type Mbx = int

  const SOK: int := 0
  const QUEUE_LEN: nat := 32
  const BROADCAST_MAX: nat := 10

  /** The receive queue and the ACK queue of a mailbox. */
  datatype Box = Rcv(m: Mbx) | Ack(m: Mbx)

  /** Where a message is: in a queue, or with the thread that received it. */
  datatype Place = In(box: Box) | InHand

  /** OSA_MsgHndl. The last three fields are labels no operation decides on: a
      serial number, the position in the sender's list, and the place. */
  datatype Msg = Msg(
    to: Mbx, from: Option<Mbx>, prm: Option<Prm>, status: int, cmd: int, waitAck: bool, freePrm: bool,
    id: int, slot: nat, at: Place)

  /** Arguments of OSA_mbxSendMsg (one target) or OSA_mbxBroadcastMsg. */
  datatype Call = Call(broadcast: bool, targets: seq<Mbx>, cmd: int, prm: Option<Prm>, waitAck: bool, freePrm: bool)

  /** The thread that sends from a mailbox: the handles it sent, their serial
      numbers, the positions acknowledged so far in order of arrival, and the
      status collected. */
  datatype Sender = Idle | Busy(call: Call, sent: seq<Handle>, ids: seq<int>, got: seq<nat>, ret: int)

  /** Who is to free a parameter: a call in progress, or the receiver of a message. */
  datatype Owner = ByCall(m: Mbx) | ByMsg(h: Handle)

  /** A completed call that waited for acknowledgements, with the call as it was made. */
  datatype Result = Result(m: Mbx, ids: seq<int>, order: seq<int>, ret: int, call: Call)

  /** hands are the handles that threads received and have not answered yet, with the
      mailbox they came from. fault is raised by touching or freeing a handle or
      parameter that is not allocated; ackLog is the status each receiver gave and
      ackBy the mailbox it had received from, by serial number. */
  datatype Sys = Sys(
    live: map<Handle, Msg>, prms: map<Prm, Owner>, boxes: map<Box, seq<Handle>>, snd: map<Mbx, Sender>,
    hands: map<Handle, Mbx>, next: int, ackLog: map<int, int>, ackBy: map<int, Mbx>, results: seq<Result>,
    fault: bool)

  function Q(s: Sys, b: Box): seq<Handle> { if b in s.boxes then s.boxes[b] else [] }

  function Snd(s: Sys, m: Mbx): Sender { if m in s.snd then s.snd[m] else Idle }

  // ----- what the code does -----

  function FreeHandle(s: Sys, h: Handle): Sys {
    if h in s.live then s.(live := s.live - {h}) else s.(fault := true)
  }

  function FreePrm(s: Sys, prm: Option<Prm>): Sys {
    if prm.None? then s
    else if prm.value in s.prms then s.(prms := s.prms - {prm.value})
    else s.(fault := true)
  }

  /** OSA_mbxFreeMsg */
  function FreeMsg(s: Sys, h: Handle): Sys {
    if h !in s.live then s.(fault := true)
    else FreeHandle(if s.live[h].freePrm then FreePrm(s, s.live[h].prm) else s, h)
  }

  /** A handle enters a queue. */
  function Enqueue(s: Sys, h: Handle, msg: Msg, b: Box): Sys {
    s.(live := s.live[h := msg.(at := In(b))], boxes := s.boxes[b := Q(s, b) + [h]])
  }

  /** Start of a send or broadcast: a parameter to be freed is newly allocated. */
  function BeginSpec(s: Sys, m: Mbx, call: Call): Sys {
    s.(snd := s.snd[m := Busy(call, [], [], [], SOK)],
       prms := if call.freePrm && call.prm.Some? then s.prms[call.prm.value := ByCall(m)] else s.prms)
  }

  /** OSA_msgqSendMsg to the next target; h is what the allocator returns. */
  function SendSpec(s: Sys, m: Mbx, h: Handle): Sys
    requires Snd(s, m).Busy? && |Snd(s, m).sent| < |Snd(s, m).call.targets|
  {
    var c, b := Snd(s, m).call, Snd(s, m);
    var t := c.targets[|b.sent|];
    var msg := Msg(t, Some(m), c.prm, SOK, c.cmd, c.waitAck, c.freePrm, s.next, |b.sent|, InHand);
    var b1 := b.(sent := b.sent + [h], ids := b.ids + [s.next]);
    var s1 := Enqueue(s, h, msg, Rcv(t));
    var done := |b1.sent| == |c.targets| && !c.waitAck;
    s1.(next := s.next + 1, snd := s.snd[m := if done then Idle else b1],
        prms := if c.freePrm && !c.waitAck && c.prm.Some? then s.prms[c.prm.value := ByMsg(h)] else s.prms)
  }

  /** A send with no mailbox to reply to. */
  function SendAnonSpec(s: Sys, t: Mbx, cmd: int, prm: Option<Prm>, freePrm: bool, h: Handle): Sys {
    var msg := Msg(t, None, prm, SOK, cmd, false, freePrm, s.next, 0, InHand);
    Enqueue(s, h, msg, Rcv(t)).(
      next := s.next + 1,
      prms := if freePrm && prm.Some? then s.prms[prm.value := ByMsg(h)] else s.prms)
  }

  /** OSA_msgqRecvMsg on a receive queue. */
  function ReceiveSpec(s: Sys, m: Mbx): Sys
    requires Q(s, Rcv(m)) != []
  {
    var h := Q(s, Rcv(m))[0];
    var s1 := s.(boxes := s.boxes[Rcv(m) := Q(s, Rcv(m))[1..]], hands := s.hands[h := m]);
    if h in s.live then s1.(live := s.live[h := s.live[h].(at := InHand)]) else s1.(fault := true)
  }

  /** A receiver reads the parameter of its message (OSA_msgGetPrm and what it points
      at). One that nobody frees has a life of its own. */
  function ReadPrmSpec(s: Sys, h: Handle): Sys {
    if h !in s.live then s.(fault := true)
    else
      var msg := s.live[h];
      if msg.freePrm && msg.prm.Some? && msg.prm.value !in s.prms then s.(fault := true) else s
  }

  /** OSA_mbxAckOrFreeMsg */
  function AckOrFreeSpec(s: Sys, h: Handle, status: int): Sys {
    var s1 := s.(hands := s.hands - {h});
    if h !in s.live then s1.(fault := true)
    else
      var msg := s.live[h];
      if msg.waitAck then
        if msg.from.None? then s1.(fault := true)
        else
          Enqueue(s1, h, msg.(status := status), Ack(msg.from.value)).(
            ackLog := s.ackLog[msg.id := status],
            ackBy := if h in s.hands then s.ackBy[msg.id := s.hands[h]] else s.ackBy)
      else FreeMsg(s1, h)
  }

  /** Position of the first list entry equal to h, or the length. */
  function Find(sent: seq<Handle>, h: Handle): (i: nat)
    ensures i <= |sent|
    ensures i < |sent| ==> sent[i] == h
    ensures forall j :: 0 <= j < i ==> sent[j] != h
  {
    if sent == [] || sent[0] == h then 0 else 1 + Find(sent[1..], h)
  }

  /** The status kept while acknowledgements arrive: the first that is not OK. */
  function Collected(ret: int, status: int): int { if ret == SOK then status else ret }

  function At(ids: seq<int>, i: nat): int { if i < |ids| then ids[i] else -1 }

  /** Serial numbers in the order their acknowledgements arrived. */
  function Order(ids: seq<int>, got: seq<nat>): (r: seq<int>)
    ensures |r| == |got| && forall k :: 0 <= k < |got| ==> r[k] == At(ids, got[k])
  {
    if got == [] then [] else Order(ids, got[..|got| - 1]) + [At(ids, got[|got| - 1])]
  }

  predicate AllGot(b: Sender)
    requires b.Busy?
  {
    forall i :: 0 <= i < |b.sent| ==> i in b.got
  }

  /** The sender takes the next acknowledgement off its ACK queue. */
  function CollectSpec(s: Sys, m: Mbx): Sys
    requires Snd(s, m).Busy? && Q(s, Ack(m)) != []
  {
    var b, h := Snd(s, m), Q(s, Ack(m))[0];
    var s1 := s.(boxes := s.boxes[Ack(m) := Q(s, Ack(m))[1..]]);
    var i := Find(b.sent, h);
    if h !in s.live then s1.(fault := true)
    else if i == |b.sent| then FreeMsg(s1, h)  // an acknowledgement of some old message
    else
      var status := s.live[h].status;
      var b1 := b.(got := b.got + [i], ret := if b.call.broadcast then Collected(b.ret, status) else status);
      if b.call.broadcast then
        var s2 := FreeHandle(s1, h);
        if AllGot(b1) then Finish(if b.call.freePrm then FreePrm(s2, b.call.prm) else s2, m, b1)
        else s2.(snd := s2.snd[m := b1])
      else Finish(FreeMsg(s1, h), m, b1)
  }

  function Finish(s: Sys, m: Mbx, b: Sender): Sys
    requires b.Busy?
  {
    s.(snd := s.snd[m := Idle], results := s.results + [Result(m, b.ids, Order(b.ids, b.got), b.ret, b.call)])
  }

  /** The second loop of OSA_mbxFlush: free what is in the ACK queue. */
  function FlushAckSpec(s: Sys, m: Mbx): Sys
    requires Q(s, Ack(m)) != []
  {
    FreeMsg(s.(boxes := s.boxes[Ack(m) := Q(s, Ack(m))[1..]]), Q(s, Ack(m))[0])
  }

  datatype Step =
    | Begin(m: Mbx, call: Call)
    | Send(m: Mbx, h: Handle)
    | SendAnon(t: Mbx, cmd: int, prm: Option<Prm>, freePrm: bool, h: Handle)
    | Receive(m: Mbx)
    | ReadPrm(h: Handle)
    | AckOrFree(h: Handle, status: int)
    | Collect(m: Mbx)
    | FlushAck(m: Mbx)

  /** What the assertions of the code demand of a call. */
  predicate ValidCall(c: Call) {
    && 1 <= |c.targets| < BROADCAST_MAX
    && (!c.broadcast ==> |c.targets| == 1)
    && (c.broadcast && c.freePrm && !c.waitAck ==> |c.targets| == 1)
  }

  predicate NewPrm(s: Sys, freePrm: bool, prm: Option<Prm>) { freePrm && prm.Some? ==> prm.value !in s.prms }

  /** One thread sends from each mailbox and flushes it; a received message is
      answered once; the allocator returns unallocated addresses; a put waits
      until the queue has room. */
  ghost predicate Enabled(s: Sys, st: Step) {
    match st
    case Begin(m, call) => Snd(s, m).Idle? && ValidCall(call) && NewPrm(s, call.freePrm, call.prm)
    case Send(m, h) =>
      var b := Snd(s, m);
      b.Busy? && |b.sent| < |b.call.targets| && h !in s.live && |Q(s, Rcv(b.call.targets[|b.sent|]))| < QUEUE_LEN
    case SendAnon(t, _, prm, freePrm, h) => h !in s.live && NewPrm(s, freePrm, prm) && |Q(s, Rcv(t))| < QUEUE_LEN
    case Receive(m) => Q(s, Rcv(m)) != []
    case ReadPrm(h) => h in s.hands
    case AckOrFree(h, _) =>
      h in s.hands
      && (h in s.live && s.live[h].waitAck && s.live[h].from.Some? ==> |Q(s, Ack(s.live[h].from.value))| < QUEUE_LEN)
    case Collect(m) =>
      var b := Snd(s, m);
      b.Busy? && |b.sent| == |b.call.targets| && Q(s, Ack(m)) != []
    case FlushAck(m) => Snd(s, m).Idle? && Q(s, Ack(m)) != []
  }

  function Next(s: Sys, st: Step): Sys
    requires Enabled(s, st)
  {
    match st
    case Begin(m, call) => BeginSpec(s, m, call)
    case Send(m, h) => SendSpec(s, m, h)
    case SendAnon(t, cmd, prm, freePrm, h) => SendAnonSpec(s, t, cmd, prm, freePrm, h)
    case Receive(m) => ReceiveSpec(s, m)
    case ReadPrm(h) => ReadPrmSpec(s, h)
    case AckOrFree(h, status) => AckOrFreeSpec(s, h, status)
    case Collect(m) => CollectSpec(s, m)
    case FlushAck(m) => FlushAckSpec(s, m)
  }
}
