/** The bounded ring of osa_que.c; the one of osa_msgq.c has the same shape. */
module OsaQue {
  import opened Wrappers

  /** The i-th place of a ring counted from rd. */
  function Slot(rd: nat, i: nat, len: nat): nat
    requires len > 0
  {
    (rd + i) % len
  }

  lemma SlotIs(rd: nat, i: nat, len: nat)
    requires rd < len && i <= len
    ensures Slot(rd, i, len) == if rd + i < len then rd + i else rd + i - len
  {
    if rd + i >= len { assert rd + i == 1 * len + (rd + i - len); }
  }

  lemma SlotsAre(rd: nat, len: nat)
    requires rd < len
    ensures forall i :: 0 <= i <= len ==> Slot(rd, i, len) == if rd + i < len then rd + i else rd + i - len
  {
    forall i | 0 <= i <= len
      ensures Slot(rd, i, len) == if rd + i < len then rd + i else rd + i - len
    {
      SlotIs(rd, i, len);
    }
  }

  /** What a pass through the loop of OSA_quePut does to the queue. */
  function Offer<T>(len: nat, q: seq<T>, v: T): (bool, seq<T>) {
    if |q| < len then (true, q + [v]) else (false, q)
  }

  /** What a pass through the loop of OSA_queGet does to the queue. */
  function Take<T>(q: seq<T>): (Option<T>, seq<T>) {
    if |q| > 0 then (Some(q[0]), q[1..]) else (None, q)
  }

  class Que {
    const len: nat
    const queue: array<int>
    var curRd: nat
    var curWr: nat
    var count: nat

    /** The queued values, oldest first. */
    ghost var contents: seq<int>

    ghost predicate Valid()
      reads this, queue
    {
      && queue.Length == len && count <= len && |contents| == count
      && (len > 0 ==>
            && curRd < len && curWr == Slot(curRd, count, len)
            && forall i :: 0 <= i < count ==> contents[i] == queue[Slot(curRd, i, len)])
    }

    /** OSA_queCreate */
    constructor (maxLen: nat)
      ensures Valid() && len == maxLen && contents == [] && fresh(queue)
    {
      len := maxLen;
      queue := new int[maxLen];
      curRd, curWr, count, contents := 0, 0, 0, [];
      new;
      if maxLen > 0 { SlotIs(0, 0, maxLen); }
    }

    /** One pass through the loop of OSA_quePut. */
    method PutPass(value: int) returns (ok: bool)
      requires Valid()
      modifies this, queue
      ensures Valid() && (ok, contents) == Offer(len, old(contents), value)
    {
      ok := count < len;
      if ok {
        SlotsAre(curRd, len);
        SlotIs(curWr, 1, len);
        queue[curWr] := value;
        curWr := Slot(curWr, 1, len);
        count := count + 1;
        contents := contents + [value];
      }
    }

    /** One pass through the loop of OSA_queGet. */
    method GetPass() returns (value: Option<int>)
      requires Valid()
      modifies this
      ensures Valid() && (value, contents) == Take(old(contents))
    {
      value := None;
      if count > 0 {
        SlotsAre(curRd, len);
        value := Some(queue[curRd]);
        SlotIs(curRd, 1, len);
        curRd := Slot(curRd, 1, len);
        count := count - 1;
        contents := contents[1..];
        SlotsAre(curRd, len);
      }
    }
  }
}
