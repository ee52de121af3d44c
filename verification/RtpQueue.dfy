/** The sentinel doubly linked queue of str_utils.c and the two operations of
    rtpmod.c on it: insertion by 16-bit sequence number and removal by timestamp. */
module RtpQueue {
  import opened Finite
  import opened Modular

  /** One received datagram: the header fields the receive path reads, and the
      size in bytes of header and payload together. */
  datatype Packet = Packet(version: nat, cc: nat, paytype: nat, seqno: u16, ts: u32, ssrc: u32, size: int)

  /** What rtp_putq does to the queued packets: the last packet the new one
      does not precede decides where it goes, and an equal number drops it. */
  function PutSpec(q: seq<Packet>, p: Packet): seq<Packet> {
    if q == [] then [p]
    else
      var l := q[|q| - 1];
      if p.seqno == l.seqno then q
      else if SeqIsGreater(p.seqno, l.seqno) then q + [p]
      else PutSpec(q[..|q| - 1], p) + [l]
  }

  /** The insertion loop goes past a queued packet l. */
  predicate Passes(p: Packet, l: Packet) { p.seqno != l.seqno && !SeqIsGreater(p.seqno, l.seqno) }

  /** c with x put in at position k. */
  function Spliced<T>(c: seq<T>, k: nat, x: T): (r: seq<T>)
    requires k <= |c|
    ensures |r| == |c| + 1 && r[k] == x
    ensures forall i :: 0 <= i < k ==> r[i] == c[i]
    ensures forall i :: k < i < |r| ==> r[i] == c[i - 1]
  {
    c[..k] + [x] + c[k..]
  }

  lemma {:induction false} PutDuplicate(q: seq<Packet>, i: nat, p: Packet)
    requires 0 < i <= |q| && q[i - 1].seqno == p.seqno
    requires forall j :: i <= j < |q| ==> Passes(p, q[j])
    ensures PutSpec(q, p) == q
  {
    if i < |q| {
      PutDuplicate(q[..|q| - 1], i, p);
    }
  }

  lemma {:induction false} PutBehind(q: seq<Packet>, i: nat, p: Packet)
    requires i <= |q|
    requires forall j :: i <= j < |q| ==> Passes(p, q[j])
    requires i > 0 ==> p.seqno != q[i - 1].seqno && SeqIsGreater(p.seqno, q[i - 1].seqno)
    ensures PutSpec(q, p) == Spliced(q, i, p)
  {
    if i < |q| {
      PutBehind(q[..|q| - 1], i, p);
    }
  }

  /** Every insertion drops a duplicate or lands at one position, greater than
      the packet before it and not than the one after it. */
  lemma {:induction false} PutShape(q: seq<Packet>, p: Packet) returns (dropped: bool, k: nat)
    ensures k <= |q|
    ensures dropped ==> PutSpec(q, p) == q && exists i :: 0 <= i < |q| && q[i].seqno == p.seqno
    ensures !dropped ==> PutSpec(q, p) == Spliced(q, k, p)
    ensures !dropped && k > 0 ==> p.seqno != q[k - 1].seqno && SeqIsGreater(p.seqno, q[k - 1].seqno)
    ensures !dropped && k < |q| ==> Passes(p, q[k])
  {
    if q == [] {
      dropped, k := false, 0;
    } else {
      var rest, l := q[..|q| - 1], q[|q| - 1];
      if Passes(p, l) {
        dropped, k := PutShape(rest, p);
        if !dropped { assert Spliced(rest, k, p) + [l] == Spliced(q, k, p); }
      } else {
        dropped, k := p.seqno == l.seqno, |q|;
      }
    }
  }

  /** rtp_getq takes the i-th packet of the queue once it has taken those before it. */
  predicate Taken(q: seq<Packet>, ts: u32, i: nat)
    requires i < |q|
  {
    TsIsNewer(ts, q[i].ts) && (i > 0 ==> q[i].ts != q[i - 1].ts)
  }

  /** Number of packets rtp_getq takes off the queue: the longest prefix of
      taken packets, counted from position i. */
  function TakenFrom(q: seq<Packet>, ts: u32, i: nat): (k: nat)
    requires i <= |q|
    ensures i <= k <= |q|
    ensures forall j :: i <= j < k ==> Taken(q, ts, j)
    ensures k < |q| ==> !Taken(q, ts, k)
    decreases |q| - i
  {
    if i < |q| && Taken(q, ts, i) then TakenFrom(q, ts, i + 1) else i
  }

  function TakenCount(q: seq<Packet>, ts: u32): (k: nat)
    ensures k <= |q|
  {
    TakenFrom(q, ts, 0)
  }

  class Mblk {
    var prev: Mblk?
    var next: Mblk?
    var pkt: Packet

    constructor (pkt: Packet)
      ensures this.pkt == pkt && prev == null && next == null
    {
      this.pkt := pkt;
      prev, next := null, null;
    }
  }

  ghost predicate Linked(c: seq<Mblk>)
    reads c
  {
    && (forall i {:trigger c[i].next} :: 0 <= i < |c| - 1 ==> c[i].next == c[i + 1])
    && (forall i {:trigger c[i].prev} :: 1 <= i < |c| ==> c[i].prev == c[i - 1])
  }

  /** The four pointer writes of an insertion link the spliced chain. */
  lemma SplicedLinks(c: seq<Mblk>, k: nat, mp: Mblk)
    requires 1 <= k < |c| && Distinct(c) && mp !in c
    requires forall i {:trigger c[i].next} :: 0 <= i < |c| - 1 && i != k - 1 ==> c[i].next == c[i + 1]
    requires forall i {:trigger c[i].prev} :: 1 <= i < |c| && i != k ==> c[i].prev == c[i - 1]
    requires c[k - 1].next == mp && mp.prev == c[k - 1] && mp.next == c[k] && c[k].prev == mp
    ensures Distinct(Spliced(c, k, mp)) && Linked(Spliced(c, k, mp))
  {
    var r := Spliced(c, k, mp);
    forall i | 0 <= i < |r| - 1 ensures r[i].next == r[i + 1] && r[i + 1].prev == r[i] {
      if i < k - 1 { assert r[i] == c[i] && r[i + 1] == c[i + 1]; }
      else if i > k { assert r[i] == c[i - 1] && r[i + 1] == c[i]; }
    }
    forall i | 1 <= i < |r| ensures r[i].prev == r[i - 1] { assert r[i - 1].next == r[i]; }
  }

  class Queue {
    const first: Mblk
    const last: Mblk
    var count: int
    /** The blocks from the first sentinel to the last one, both included. */
    ghost var chain: seq<Mblk>
    /** The queued packets, oldest first. */
    ghost var packets: seq<Packet>
    /** The blocks the links run through. */
    ghost var blocks: set<Mblk>

    ghost predicate Valid()
      reads this, blocks
    {
      && (forall i :: 0 <= i < |chain| ==> chain[i] in blocks)
      && |chain| >= 2 && chain[0] == first && chain[|chain| - 1] == last
      && count == |packets| == |chain| - 2
      && Distinct(chain) && Linked(chain)
      && (forall i :: 0 <= i < |packets| ==> packets[i] == chain[i + 1].pkt)
    }

    /** qinit */
    constructor ()
      ensures Valid() && fresh(blocks) && packets == []
    {
      var blank := Packet(0, 0, 0, 0, 0, 0, 0);
      var f := new Mblk(blank);
      var l := new Mblk(blank);
      first, last, count, chain, packets, blocks := f, l, 0, [f, l], [], {f, l};
      new;
      f.next := l;
      l.prev := f;
    }

    /** The four pointer writes of putq and insq: mp goes in just before chain[k]. */
    method Link(mp: Mblk, after: Mblk, ghost k: nat)
      requires Valid() && mp !in blocks && 1 <= k < |chain| && after == chain[k]
      modifies this, blocks, mp
      ensures Valid() && chain == Spliced(old(chain), k, mp)
      ensures packets == Spliced(old(packets), k - 1, old(mp.pkt)) && mp.pkt == old(mp.pkt)
      ensures blocks == old(blocks) + {mp}
    {
      assert after.prev == chain[k - 1];
      after.prev.next := mp;
      mp.prev := after.prev;
      mp.next := after;
      after.prev := mp;
      count := count + 1;
      SplicedLinks(chain, k, mp);
      chain := Spliced(chain, k, mp);
      packets := Spliced(packets, k - 1, mp.pkt);
      blocks := blocks + {mp};
    }

    /** putq */
    method Putq(mp: Mblk)
      requires Valid() && mp !in blocks
      modifies this, blocks, mp
      ensures Valid() && chain == Spliced(old(chain), |old(chain)| - 1, mp)
      ensures packets == old(packets) + [old(mp.pkt)] && mp.pkt == old(mp.pkt)
      ensures blocks == old(blocks) + {mp}
    {
      Link(mp, last, |chain| - 1);
    }

    /** insq: insert mp just before emp, or at the end when emp is NULL. */
    method Insq(emp: Mblk?, mp: Mblk, ghost k: nat)
      requires Valid() && mp !in blocks
      requires 1 <= k < |chain| && (if emp == null then k == |chain| - 1 else emp == chain[k])
      modifies this, blocks, mp
      ensures Valid() && chain == Spliced(old(chain), k, mp)
      ensures packets == Spliced(old(packets), k - 1, old(mp.pkt)) && mp.pkt == old(mp.pkt)
      ensures blocks == old(blocks) + {mp}
    {
      if emp == null {
        Putq(mp);
      } else {
        Link(mp, emp, k);
      }
    }

    /** getq */
    method Getq() returns (mp: Mblk?)
      requires Valid()
      modifies this, blocks
      ensures Valid()
      ensures mp == null <==> old(packets) == []
      ensures mp == null ==> packets == [] && blocks == old(blocks)
      ensures mp != null ==> mp == old(chain)[1] && mp.prev == null && mp.next == null
                             && mp.pkt == old(packets)[0] && packets == old(packets)[1..]
                             && mp in old(blocks) && blocks == old(blocks) - {mp}
    {
      mp := first.next;
      if mp == last { return null; }
      first.next := mp.next;
      mp.next.prev := first;
      mp.prev := null;
      mp.next := null;
      count := count - 1;
      chain := [first] + chain[2..];
      packets := packets[1..];
      blocks := blocks - {mp};
    }

    /** rtp_putq. The result says whether mp was queued rather than freed. */
    method RtpPutq(mp: Mblk) returns (queued: bool)
      requires Valid() && mp !in blocks
      modifies this, blocks, mp
      ensures Valid()
      ensures packets == PutSpec(old(packets), old(mp.pkt))
      ensures blocks == if queued then old(blocks) + {mp} else old(blocks)
      ensures mp.pkt == old(mp.pkt)
    {
      var p := mp.pkt;
      if first.next == last {
        Insq(null, mp, 1);
        return true;
      }
      var tmp := last.prev;
      ghost var i := |packets|;
      while tmp != first
        invariant 0 <= i <= |packets| && tmp == chain[i]
        invariant forall j :: i <= j < |packets| ==> Passes(p, packets[j])
        decreases i
      {
        assert tmp.pkt == packets[i - 1];
        if p.seqno == tmp.pkt.seqno {
          PutDuplicate(packets, i, p);
          return false;
        } else if SeqIsGreater(p.seqno, tmp.pkt.seqno) {
          PutBehind(packets, i, p);
          Insq(tmp.next, mp, i + 1);
          return true;
        }
        tmp := tmp.prev;
        i := i - 1;
      }
      PutBehind(packets, 0, p);
      Insq(first.next, mp, 1);
      return true;
    }

    /** rtp_getq. Discarded blocks are freed: they are in no queue any more. */
    method RtpGetq(ts: u32) returns (ret: Mblk?, rejected: nat, ghost freed: seq<Packet>)
      requires Valid()
      modifies this, blocks
      ensures Valid()
      ensures var q, k := old(packets), TakenCount(old(packets), ts);
              && packets == q[k..]
              && rejected == (if k == 0 then 0 else k - 1)
              && freed == q[..rejected]
              && (ret == null <==> k == 0)
              && (ret != null ==> ret.pkt == q[k - 1] && ret in old(blocks))
      ensures blocks <= old(blocks) && ret !in blocks
    {
      rejected, freed, ret := 0, [], null;
      ghost var b0, ps := blocks, packets;
      if first.next == last { return; }
      if TsIsStrictlyNewer(first.next.pkt.ts, ts) {
        OlderThanOldest(ps, ts);
        return;
      }
      var tsFound := 0;
      ghost var k := 0;
      while first.next != last
        invariant Valid() && k <= |ps|
        invariant packets == ps[k..]
        invariant blocks <= b0 && ret !in blocks
        invariant TakenFrom(ps, ts, k) == TakenCount(ps, ts)
        invariant ret == null <==> k == 0
        invariant ret != null ==> ret in b0 && ret.pkt == ps[k - 1] && tsFound == ps[k - 1].ts
        invariant rejected == (if k == 0 then 0 else k - 1) && freed == ps[..rejected]
        decreases |packets|
      {
        var tmp := first.next;
        assert tmp.pkt == packets[0] == ps[k];
        if !TsIsNewer(ts, tmp.pkt.ts) || (ret != null && tmp.pkt.ts == tsFound) { break; }
        if ret != null {
          rejected := rejected + 1;
          freed := ps[..rejected];
        }
        ret := Getq();
        tsFound := ret.pkt.ts;
        k := k + 1;
      }
    }
  }

  /** The early return of rtp_getq for a query older than the whole queue is
      the empty prefix of the loop. */
  lemma {:induction false} OlderThanOldest(q: seq<Packet>, ts: u32)
    requires q != [] && TsIsStrictlyNewer(q[0].ts, ts)
    ensures TakenCount(q, ts) == 0
  {
    var d := q[0].ts - ts;
    assert Wrap32(-d) == if Wrap32(d) == 0 then 0 else M32 - Wrap32(d) by { Wrap32Diff(0, d); }
  }
}
