/** The loop of OSA_mbxBroadcastMsg that waits for the acknowledgements, over any
    sequence of arrivals on the ACK queue: in any order, and with messages that are
    none of those just sent among them. */
module MbxBroadcast {
  import opened Wrappers
  import opened OsaMbx
  import opened Finite

  /** What the loop reads of a message it takes off the ACK queue. */
  datatype Arrival = Arrival(h: Handle, status: int, freePrm: bool, prm: Option<Prm>)

  datatype Freed = MsgFreed(h: Handle) | PrmFreed(p: Prm)

  ghost predicate Answered(arrivals: seq<Arrival>, h: Handle) {
    exists k :: 0 <= k < |arrivals| && arrivals[k].h == h
  }

  ghost predicate AllAnswered(sent: seq<Handle>, arrivals: seq<Arrival>) {
    forall i :: 0 <= i < |sent| ==> Answered(arrivals, sent[i])
  }

  /** OK if every answer to a message on the list is, and else the first that is not. */
  ghost predicate FirstBad(sent: seq<Handle>, arrivals: seq<Arrival>, ret: int) {
    && (ret == SOK <==> forall k :: 0 <= k < |arrivals| && arrivals[k].h in sent ==> arrivals[k].status == SOK)
    && (ret != SOK ==>
          exists k :: 0 <= k < |arrivals| && arrivals[k].h in sent && arrivals[k].status == ret
            && forall j :: 0 <= j < k && arrivals[j].h in sent ==> arrivals[j].status == SOK)
  }

  function PrmFree(freePrm: bool, prm: Option<Prm>): seq<Freed> {
    if freePrm && prm.Some? then [PrmFreed(prm.value)] else []
  }

  /** A message on the list is freed alone, an old one with its parameter. */
  function Frees(sent: seq<Handle>, arrivals: seq<Arrival>): seq<Freed> {
    if arrivals == [] then []
    else
      var a := arrivals[|arrivals| - 1];
      Frees(sent, arrivals[..|arrivals| - 1])
      + (if a.h in sent then [] else PrmFree(a.freePrm, a.prm)) + [MsgFreed(a.h)]
  }

  lemma FirstBadStep(sent: seq<Handle>, arrivals: seq<Arrival>, n: nat, ret: int)
    requires n < |arrivals| && FirstBad(sent, arrivals[..n], ret)
    ensures FirstBad(sent, arrivals[..n + 1],
                     if arrivals[n].h in sent then Collected(ret, arrivals[n].status) else ret)
  {
    var a, b := arrivals[..n], arrivals[..n + 1];
    assert b == a + [arrivals[n]];
    if ret != SOK {
      var k :| 0 <= k < |a| && a[k].h in sent && a[k].status == ret
               && forall j :: 0 <= j < k && a[j].h in sent ==> a[j].status == SOK;
      assert b[k] == a[k];
    } else {
      assert b[n] == arrivals[n];
    }
  }

  lemma AnsweredStep(arrivals: seq<Arrival>, n: nat, h: Handle)
    requires n < |arrivals|
    ensures Answered(arrivals[..n + 1], h) <==> Answered(arrivals[..n], h) || arrivals[n].h == h
  {
    if arrivals[n].h == h {
      assert arrivals[..n + 1][n].h == h;
    }
    if Answered(arrivals[..n], h) {
      var k :| 0 <= k < n && arrivals[..n][k].h == h;
      assert arrivals[..n + 1][k].h == h;
    }
    if Answered(arrivals[..n + 1], h) {
      var k :| 0 <= k < n + 1 && arrivals[..n + 1][k].h == h;
      assert k < n ==> arrivals[..n][k].h == h;
    }
  }

  /** sent is the list of handles just sent; the arrivals include an answer to each,
      as otherwise the code waits on. The loop stops at the first arrival after which
      every message is answered and frees the shared parameter last. */
  method CollectAcks(sent: seq<Handle>, freePrm: bool, prm: Option<Prm>, arrivals: seq<Arrival>)
      returns (ret: int, used: nat, freed: seq<Freed>)
    requires 1 <= |sent| < BROADCAST_MAX && Distinct(sent) && AllAnswered(sent, arrivals)
    ensures used <= |arrivals| && AllAnswered(sent, arrivals[..used])
    ensures forall n :: 0 <= n < used ==> !AllAnswered(sent, arrivals[..n])
    ensures FirstBad(sent, arrivals[..used], ret)
    ensures freed == Frees(sent, arrivals[..used]) + PrmFree(freePrm, prm)
  {
    var numMsg := |sent|;
    var ackList := new bool[BROADCAST_MAX](_ => false);
    var waitAck := true;
    ret, used, freed := SOK, 0, [];
    assert !Answered(arrivals[..0], sent[0]);
    while waitAck
      invariant used <= |arrivals|
      invariant forall i :: 0 <= i < numMsg ==> (ackList[i] <==> Answered(arrivals[..used], sent[i]))
      invariant waitAck <==> !AllAnswered(sent, arrivals[..used])
      invariant forall n :: 0 <= n < used ==> !AllAnswered(sent, arrivals[..n])
      invariant FirstBad(sent, arrivals[..used], ret)
      invariant freed == Frees(sent, arrivals[..used])
      decreases |arrivals| - used
    {
      assert arrivals[..|arrivals|] == arrivals;
      ghost var before := used;
      assert !AllAnswered(sent, arrivals[..before]);
      var rcvMsg := arrivals[used];
      used := used + 1;
      FirstBadStep(sent, arrivals, before, ret);
      var unknownAck := MarkAck(sent, rcvMsg.h, ackList);
      if !unknownAck {
        ret := if ret == SOK then rcvMsg.status else ret;
      }
      forall i | 0 <= i < numMsg ensures ackList[i] <==> Answered(arrivals[..used], sent[i]) {
        AnsweredStep(arrivals, before, sent[i]);
      }
      waitAck := SomeMissing(ackList, numMsg);
      forall n | 0 <= n < used ensures !AllAnswered(sent, arrivals[..n]) {
        if n == before { assert arrivals[..n] == arrivals[..before]; }
      }
      assert arrivals[..used][..before] == arrivals[..before] && arrivals[..used][before] == rcvMsg;
      freed := freed + (if unknownAck then PrmFree(rcvMsg.freePrm, rcvMsg.prm) else []) + [MsgFreed(rcvMsg.h)];
    }
    freed := freed + PrmFree(freePrm, prm);
  }

  /** The loop over the list after each acknowledgement. */
  method SomeMissing(ackList: array<bool>, numMsg: nat) returns (waitAck: bool)
    requires numMsg <= ackList.Length
    ensures waitAck <==> exists j :: 0 <= j < numMsg && !ackList[j]
  {
    waitAck := false;
    var i := 0;
    while i < numMsg
      invariant 0 <= i <= numMsg && !waitAck
      invariant forall j :: 0 <= j < i ==> ackList[j]
    {
      if !ackList[i] {
        waitAck := true;
        break;
      }
      i := i + 1;
    }
  }

  /** Marks the position of a handle on the list, if it has one. */
  method MarkAck(sent: seq<Handle>, h: Handle, ackList: array<bool>) returns (unknownAck: bool)
    requires |sent| <= ackList.Length && Distinct(sent)
    modifies ackList
    ensures unknownAck <==> h !in sent
    ensures forall i :: 0 <= i < |sent| ==> ackList[i] == (old(ackList[i]) || sent[i] == h)
    ensures forall i :: |sent| <= i < ackList.Length ==> ackList[i] == old(ackList[i])
  {
    unknownAck := true;
    var i := 0;
    while i < |sent|
      invariant 0 <= i <= |sent| && unknownAck
      invariant forall j :: 0 <= j < i ==> sent[j] != h
      invariant forall j :: 0 <= j < ackList.Length ==> ackList[j] == old(ackList[j])
    {
      if sent[i] == h {
        ackList[i] := true;
        unknownAck := false;
        break;
      }
      i := i + 1;
    }
  }
}
